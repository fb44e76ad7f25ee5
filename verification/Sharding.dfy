/** The split of the test files over the shards of a run. */
module Sharding {
  import opened Sorting
  import opened ShardBound

  datatype File = File(name: string, size: nat)

  /** Largest first, ties by path. */
  predicate FileLeq(a: File, b: File) {
    a.size > b.size || (a.size == b.size && StringLeq(a.name, b.name))
  }

  lemma FileOrder()
    ensures TotalOrder(FileLeq)
  {
    StringOrder();
  }

  function Sizes(files: seq<File>): seq<nat> {
    seq(|files|, j requires 0 <= j < |files| => files[j].size)
  }

  function Ordered(files: seq<File>): seq<File> {
    Sort(files, FileLeq)
  }

  /** The names that `assign` puts on shard `s`, in the order they were placed. */
  function Share(files: seq<File>, assign: seq<nat>, s: nat): seq<string>
    requires |files| == |assign|
  {
    if files == [] then []
    else
      var k := |files| - 1;
      Share(files[..k], assign[..k], s) + if assign[k] == s then [files[k].name] else []
  }

  /** The files of one of `count` shards, as the run is given them. */
  function ShardOf(files: seq<File>, s: nat, count: nat): seq<string>
    requires count > 0
  {
    Sort(Share(Ordered(files), Greedy(Sizes(Ordered(files)), count), s), StringLeq)
  }

  /** The loads once the first `k` files are placed. */
  function LoadsAfter(files: seq<File>, k: nat, count: nat): seq<nat>
    requires k <= |files| && count > 0
  {
    Loads(Sizes(files[..k]), Greedy(Sizes(files[..k]), count), count)
  }

  /** What shard `s` holds once the first `k` files are placed. */
  function ShareAfter(files: seq<File>, k: nat, s: nat, count: nat): seq<string>
    requires k <= |files| && count > 0
  {
    Share(files[..k], Greedy(Sizes(files[..k]), count), s)
  }

  lemma GreedyPrefix(files: seq<File>, k: nat, count: nat)
    requires k < |files| && count > 0
    ensures Sizes(files[..k + 1])[..k] == Sizes(files[..k])
    ensures Greedy(Sizes(files[..k + 1]), count)[..k] == Greedy(Sizes(files[..k]), count)
    ensures Greedy(Sizes(files[..k + 1]), count)[k] == Lightest(LoadsAfter(files, k, count), count)
  {
    assert Sizes(files[..k + 1])[..k] == Sizes(files[..k]);
  }

  lemma Placing(files: seq<File>, k: nat, s: nat, count: nat)
    requires k < |files| && count > 0
    ensures var l := Lightest(LoadsAfter(files, k, count), count);
            && LoadsAfter(files, k + 1, count) ==
               LoadsAfter(files, k, count)[l := LoadsAfter(files, k, count)[l] + files[k].size]
            && ShareAfter(files, k + 1, s, count) ==
               ShareAfter(files, k, s, count) + if l == s then [files[k].name] else []
  {
    GreedyPrefix(files, k, count);
    assert files[..k + 1][..k] == files[..k];
  }

  /** The index of the lightest load, first one on a tie. */
  method FindLightest(load: array<nat>) returns (lightest: nat)
    requires load.Length > 0
    ensures lightest < load.Length && lightest == Lightest(load[..], load.Length)
  {
    lightest := 0;
    for i := 1 to load.Length
      invariant lightest < load.Length && lightest == Lightest(load[..], i)
    {
      if load[i] < load[lightest] {
        lightest := i;
      }
    }
  }

  /** Puts a file on the lightest shard. */
  method AddToLightest(load: array<nat>, size: nat) returns (l: nat)
    requires load.Length > 0
    modifies load
    ensures l < load.Length && l == Lightest(old(load[..]), load.Length)
    ensures load[..] == old(load[..])[l := old(load[l]) + size]
  {
    l := FindLightest(load);
    load[l] := load[l] + size;
  }

  predicate Placed(files: seq<File>, k: nat, s: nat, count: nat, load: seq<nat>, out: seq<string>)
    requires k <= |files| && count > 0
  {
    load == LoadsAfter(files, k, count) && out == ShareAfter(files, k, s, count)
  }

  lemma PlacedNone(files: seq<File>, s: nat, count: nat, load: seq<nat>)
    requires count > 0 && |load| == count && forall i :: 0 <= i < count ==> load[i] == 0
    ensures Placed(files, 0, s, count, load, [])
  {
    assert load == LoadsAfter(files, 0, count);
  }

  lemma PlacedAll(files: seq<File>, s: nat, count: nat, load: seq<nat>, out: seq<string>)
    requires count > 0 && Placed(files, |files|, s, count, load, out)
    ensures out == Share(files, Greedy(Sizes(files), count), s)
  {
    assert files[..|files|] == files;
  }

  lemma PlaceNext(files: seq<File>, k: nat, s: nat, count: nat, load: seq<nat>, out: seq<string>, l: nat)
    requires k < |files| && count > 0 && Placed(files, k, s, count, load, out)
    requires |load| == count && l == Lightest(load, count) < count
    ensures var shard := out + if l == s then [files[k].name] else [];
            Placed(files, k + 1, s, count, load[l := load[l] + files[k].size], shard)
  {
    Placing(files, k, s, count);
  }

  /** Places the files, in order, and keeps those of shard `index`. */
  method PlaceAll(sorted: seq<File>, index: nat, count: nat) returns (out: seq<string>)
    requires 1 <= index <= count
    ensures out == Share(sorted, Greedy(Sizes(sorted), count), index - 1)
  {
    var load := new nat[count](_ => 0);
    out := [];
    PlacedNone(sorted, index - 1, count, load[..]);
    for k := 0 to |sorted|
      invariant Placed(sorted, k, index - 1, count, load[..], out)
    {
      ghost var before, placed := load[..], out;
      var lightest := AddToLightest(load, sorted[k].size);
      if lightest == index - 1 {
        out := out + [sorted[k].name];
      }
      PlaceNext(sorted, k, index - 1, count, before, placed, lightest);
    }
    PlacedAll(sorted, index - 1, count, load[..], out);
  }

  /** The files of shard `index` of `count`, which every shard computes on its own. */
  method ShardFiles(files: seq<File>, index: nat, count: nat) returns (out: seq<string>)
    requires 1 <= index <= count
    ensures out == ShardOf(files, index - 1, count)
  {
    out := PlaceAll(Sort(files, FileLeq), index, count);
    out := Sort(out, StringLeq);
  }

  // ---- what the split promises ----

  /** The parts, one after the other. */
  function Flat(parts: seq<seq<string>>): seq<string> {
    if parts == [] then [] else Flat(parts[..|parts| - 1]) + parts[|parts| - 1]
  }

  /** What each of `n` shards holds. */
  function Shares(files: seq<File>, assign: seq<nat>, n: nat): (parts: seq<seq<string>>)
    requires |files| == |assign|
    ensures |parts| == n
  {
    seq(n, s requires 0 <= s < n => Share(files, assign, s))
  }

  function Names(files: seq<File>): seq<string> {
    if files == [] then [] else Names(files[..|files| - 1]) + [files[|files| - 1].name]
  }

  lemma {:induction false} FlatSame(a: seq<seq<string>>, b: seq<seq<string>>)
    requires |a| == |b| && forall s :: 0 <= s < |a| ==> multiset(a[s]) == multiset(b[s])
    ensures multiset(Flat(a)) == multiset(Flat(b))
  {
    if a != [] {
      var k := |a| - 1;
      FlatSame(a[..k], b[..k]);
    }
  }

  /** One more name in one part is one more name in all. */
  lemma {:induction false} FlatAddOne(a: seq<seq<string>>, b: seq<seq<string>>, l: nat, x: string)
    requires |a| == |b| && l < |a| && b[l] == a[l] + [x]
    requires forall s :: 0 <= s < |a| && s != l ==> b[s] == a[s]
    ensures multiset(Flat(b)) == multiset(Flat(a)) + multiset{x}
  {
    var k := |a| - 1;
    if l == k {
      FlatSame(a[..k], b[..k]);
    } else {
      FlatAddOne(a[..k], b[..k], l, x);
    }
  }

  lemma {:induction false} NoShares(parts: seq<seq<string>>)
    requires forall s :: 0 <= s < |parts| ==> parts[s] == []
    ensures Flat(parts) == []
  {
    if parts != [] {
      NoShares(parts[..|parts| - 1]);
    }
  }

  /** Every file is in exactly one share. */
  lemma {:induction false} SharesPartition(files: seq<File>, assign: seq<nat>, n: nat)
    requires |files| == |assign| && Split(assign, n)
    ensures multiset(Flat(Shares(files, assign, n))) == multiset(Names(files))
  {
    if files == [] {
      NoShares(Shares(files, assign, n));
    } else {
      var k := |files| - 1;
      SharesPartition(files[..k], assign[..k], n);
      var before, after := Shares(files[..k], assign[..k], n), Shares(files, assign, n);
      forall s | 0 <= s < n
        ensures after[s] == before[s] + if assign[k] == s then [files[k].name] else []
      {
      }
      FlatAddOne(before, after, assign[k], files[k].name);
    }
  }

  /** What each shard of a run is given. */
  function ShardList(files: seq<File>, count: nat): (parts: seq<seq<string>>)
    requires count > 0
    ensures |parts| == count
  {
    seq(count, s requires 0 <= s < count => ShardOf(files, s, count))
  }

  /** The files of every shard of a run, one shard after the other. */
  function AllShards(files: seq<File>, count: nat): seq<string>
    requires count > 0
  {
    Flat(ShardList(files, count))
  }

  lemma {:induction false} NamesAppend(a: seq<File>, b: seq<File>)
    ensures Names(a + b) == Names(a) + Names(b)
  {
    if b == [] {
      assert a + b == a;
    } else {
      assert (a + b)[..|a + b| - 1] == a + b[..|b| - 1];
      NamesAppend(a, b[..|b| - 1]);
    }
  }

  lemma NamesAround(a: seq<File>, f: File, b: seq<File>)
    ensures multiset(Names(a + [f] + b)) == multiset(Names(a + b)) + multiset{f.name}
  {
    NamesAppend(a, [f]);
    NamesAppend(a + [f], b);
    NamesAppend(a, b);
    assert Names([f]) == Names([]) + [f.name] == [f.name];
  }

  lemma RemoveOne<T>(s: seq<T>, x: T) returns (a: seq<T>, b: seq<T>)
    requires x in s
    ensures s == a + [x] + b && multiset(a + b) == multiset(s) - multiset{x}
  {
    var i :| 0 <= i < |s| && s[i] == x;
    a, b := s[..i], s[i + 1..];
    assert s == a + [x] + b;
  }

  lemma FrontMultiset<T>(a: seq<T>)
    requires a != []
    ensures a[|a| - 1] in multiset(a)
    ensures multiset(a[..|a| - 1]) == multiset(a) - multiset{a[|a| - 1]}
  {
    assert a == a[..|a| - 1] + [a[|a| - 1]];
  }

  /** The names depend only on which files there are. */
  lemma {:induction false} NamesPermute(a: seq<File>, b: seq<File>)
    requires multiset(a) == multiset(b)
    ensures multiset(Names(a)) == multiset(Names(b))
  {
    if a == [] {
      assert |b| == |multiset(b)| == 0;
    } else {
      var front, f := a[..|a| - 1], a[|a| - 1];
      FrontMultiset(a);
      assert f in multiset(b);
      var before, after := RemoveOne(b, f);
      NamesPermute(front, before + after);
      NamesAround(before, f, after);
    }
  }

  /** Every file lands in exactly one shard. */
  lemma ShardsPartition(files: seq<File>, count: nat)
    requires count > 0
    ensures multiset(AllShards(files, count)) == multiset(Names(files))
  {
    var sorted, assign := Ordered(files), Greedy(Sizes(Ordered(files)), count);
    var shares, parts := Shares(sorted, assign, count), ShardList(files, count);
    forall s | 0 <= s < count ensures multiset(parts[s]) == multiset(shares[s]) {
      SortMultiset(shares[s], StringLeq);
    }
    FlatSame(parts, shares);
    SharesPartition(sorted, assign, count);
    SortMultiset(files, FileLeq);
    NamesPermute(Ordered(files), files);
  }

  /** The split does not depend on the order the files are found in. */
  lemma ShardsIgnoreOrder(files: seq<File>, other: seq<File>, s: nat, count: nat)
    requires count > 0 && multiset(files) == multiset(other)
    ensures ShardOf(files, s, count) == ShardOf(other, s, count)
  {
    FileOrder();
    SortPermutation(files, other, FileLeq);
  }

  lemma OrderedDescends(files: seq<File>)
    ensures Descending(Sizes(Ordered(files)))
  {
    FileOrder();
    SortSorted(files, FileLeq);
    var sizes := Sizes(Ordered(files));
    forall i, j | 0 <= i < j < |sizes| ensures sizes[i] >= sizes[j] {
      assert FileLeq(Ordered(files)[i], Ordered(files)[j]);
    }
  }

  /** The heaviest shard weighs at most 4/3 - 1/(3n) times the heaviest of any other split of the files. */
  lemma ShardsNearBest(files: seq<File>, count: nat, split: seq<nat>, best: nat)
    requires count > 0 && Achieves(Sizes(Ordered(files)), split, count, best)
    ensures var sizes := Sizes(Ordered(files));
            forall s :: 0 <= s < count ==> FourThirds(Load(sizes, Greedy(sizes, count), s), count, best)
  {
    OrderedDescends(files);
    WithinFourThirds(Sizes(Ordered(files)), count, split, best);
  }

  lemma {:induction false} ShareNonEmpty(files: seq<File>, assign: seq<nat>, s: nat)
    requires |files| == |assign| && s in assign
    ensures Share(files, assign, s) != []
  {
    var k := |files| - 1;
    if assign[k] != s {
      assert s in assign[..k];
      ShareNonEmpty(files[..k], assign[..k], s);
    }
  }

  /** With at least as many non-empty files as shards, no shard is empty. */
  lemma NoShardEmpty(files: seq<File>, s: nat, count: nat)
    requires s < count <= |files| && forall f :: f in files ==> f.size > 0
    ensures ShardOf(files, s, count) != []
  {
    var sorted := Ordered(files);
    SortMultiset(files, FileLeq);
    forall j | 0 <= j < |sorted| ensures Sizes(sorted)[j] > 0 {
      assert sorted[j] in multiset(files);
    }
    NoneEmpty(Sizes(sorted), count);
    ShareNonEmpty(sorted, Greedy(Sizes(sorted), count), s);
    SortMultiset(Share(sorted, Greedy(Sizes(sorted), count), s), StringLeq);
  }
}
