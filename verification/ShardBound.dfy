/** How well largest-first-into-lightest balances: Graham's bounds. */
module ShardBound {

  /** The weight that `assign` puts on shard `s`. */
  function Load(weights: seq<nat>, assign: seq<nat>, s: nat): nat
    requires |weights| == |assign|
  {
    if weights == [] then 0
    else
      var k := |weights| - 1;
      Load(weights[..k], assign[..k], s) + if assign[k] == s then weights[k] else 0
  }

  function Loads(weights: seq<nat>, assign: seq<nat>, n: nat): seq<nat>
    requires |weights| == |assign|
  {
    seq(n, s requires 0 <= s < n => Load(weights, assign, s))
  }

  function Sum(weights: seq<nat>): nat {
    if weights == [] then 0 else Sum(weights[..|weights| - 1]) + weights[|weights| - 1]
  }

  /** Every file goes to one of the `n` shards. */
  predicate Split(assign: seq<nat>, n: nat) {
    forall j :: 0 <= j < |assign| ==> assign[j] < n
  }

  /** The first of the lightest shards, found the way the loop finds it. */
  function Lightest(loads: seq<nat>, upTo: nat): (l: nat)
    requires 0 < upTo <= |loads|
    ensures l < upTo
    ensures forall s :: 0 <= s < upTo ==> loads[l] <= loads[s]
    ensures forall s :: 0 <= s < l ==> loads[l] < loads[s]
  {
    if upTo == 1 then 0
    else
      var l := Lightest(loads, upTo - 1);
      if loads[upTo - 1] < loads[l] then upTo - 1 else l
  }

  /** The shard of each file, in the order they are placed. */
  function Greedy(sizes: seq<nat>, n: nat): (assign: seq<nat>)
    requires n > 0
    ensures |assign| == |sizes| && Split(assign, n)
  {
    if sizes == [] then []
    else
      var before := Greedy(sizes[..|sizes| - 1], n);
      before + [Lightest(Loads(sizes[..|sizes| - 1], before, n), n)]
  }

  // ---- weights are conserved ----

  /** The weight on the first `n` shards together. */
  function Total(weights: seq<nat>, assign: seq<nat>, n: nat): nat
    requires |weights| == |assign|
  {
    if n == 0 then 0 else Total(weights, assign, n - 1) + Load(weights, assign, n - 1)
  }

  lemma {:induction false} TotalSnoc(weights: seq<nat>, assign: seq<nat>, n: nat)
    requires |weights| == |assign| > 0
    ensures var k := |weights| - 1;
            Total(weights, assign, n) == Total(weights[..k], assign[..k], n) + if assign[k] < n then weights[k] else 0
  {
    if n > 0 {
      TotalSnoc(weights, assign, n - 1);
    }
  }

  lemma {:induction false} Nothing(n: nat)
    ensures Total([], [], n) == 0
  {
    if n > 0 {
      Nothing(n - 1);
    }
  }

  /** No weight is lost or counted twice, whatever the split. */
  lemma {:induction false} Conserved(weights: seq<nat>, assign: seq<nat>, n: nat)
    requires |weights| == |assign| && Split(assign, n)
    ensures Total(weights, assign, n) == Sum(weights)
  {
    if weights == [] {
      Nothing(n);
    } else {
      TotalSnoc(weights, assign, n);
      Conserved(weights[..|weights| - 1], assign[..|weights| - 1], n);
    }
  }

  lemma {:induction false} TotalAtMost(weights: seq<nat>, assign: seq<nat>, n: nat, bound: nat)
    requires |weights| == |assign| && forall s :: 0 <= s < n ==> Load(weights, assign, s) <= bound
    ensures Total(weights, assign, n) <= n * bound
  {
    if n > 0 {
      TotalAtMost(weights, assign, n - 1, bound);
      assert n * bound == (n - 1) * bound + bound;
    }
  }

  lemma {:induction false} TotalAtLeast(weights: seq<nat>, assign: seq<nat>, n: nat, bound: nat)
    requires |weights| == |assign| && forall s :: 0 <= s < n ==> bound <= Load(weights, assign, s)
    ensures n * bound <= Total(weights, assign, n)
  {
    if n > 0 {
      TotalAtLeast(weights, assign, n - 1, bound);
      assert n * bound == (n - 1) * bound + bound;
    }
  }

  // ---- the loads of one shard ----

  function Ones(k: nat): seq<nat> {
    seq(k, _ => 1)
  }

  /** How many files `assign` puts on shard `s`. */
  function Count(assign: seq<nat>, s: nat): nat {
    Load(Ones(|assign|), assign, s)
  }

  lemma {:induction false} LoadAtMost(weights: seq<nat>, assign: seq<nat>, s: nat, bound: nat)
    requires |weights| == |assign|
    requires forall j :: 0 <= j < |assign| && assign[j] == s ==> weights[j] <= bound
    ensures Load(weights, assign, s) <= bound * Count(assign, s)
  {
    if weights != [] {
      var k := |weights| - 1;
      LoadAtMost(weights[..k], assign[..k], s, bound);
      CountSnoc(assign, s);
      assert bound * (Count(assign[..k], s) + 1) == bound * Count(assign[..k], s) + bound;
    }
  }

  lemma CountSnoc(assign: seq<nat>, s: nat)
    requires assign != []
    ensures var k := |assign| - 1; Count(assign, s) == Count(assign[..k], s) + if assign[k] == s then 1 else 0
  {
    assert Ones(|assign|)[..|assign| - 1] == Ones(|assign| - 1);
  }

  /** Two files on one shard weigh at least as much as one of them and the least weight there is. */
  lemma {:induction false} LoadAtLeast(weights: seq<nat>, assign: seq<nat>, s: nat, j: nat, least: nat)
    requires |weights| == |assign| && j < |assign| && assign[j] == s
    requires forall i :: 0 <= i < |assign| && assign[i] == s ==> least <= weights[i]
    ensures weights[j] + least * (Count(assign, s) - 1) <= Load(weights, assign, s)
    ensures Count(assign, s) >= 1
  {
    var k := |weights| - 1;
    CountSnoc(assign, s);
    if j == k {
      AllAtLeast(weights[..k], assign[..k], s, least);
    } else {
      LoadAtLeast(weights[..k], assign[..k], s, j, least);
      assert least * Count(assign[..k], s) == least * (Count(assign[..k], s) - 1) + least;
    }
  }

  lemma {:induction false} AllAtLeast(weights: seq<nat>, assign: seq<nat>, s: nat, least: nat)
    requires |weights| == |assign|
    requires forall i :: 0 <= i < |assign| && assign[i] == s ==> least <= weights[i]
    ensures least * Count(assign, s) <= Load(weights, assign, s)
  {
    if weights != [] {
      var k := |weights| - 1;
      AllAtLeast(weights[..k], assign[..k], s, least);
      CountSnoc(assign, s);
      assert least * (Count(assign[..k], s) + 1) == least * Count(assign[..k], s) + least;
    }
  }

  lemma {:induction false} LoadGrows(weights: seq<nat>, assign: seq<nat>, s: nat, j: nat)
    requires |weights| == |assign| && j < |assign| && assign[j] == s
    ensures weights[j] <= Load(weights, assign, s)
  {
    LoadAtLeast(weights, assign, s, j, 0);
  }

  // ---- the bounds ----

  /** `best` is what some split of the files over the shards achieves, or more. */
  ghost predicate Achieves(sizes: seq<nat>, split: seq<nat>, n: nat, best: nat) {
    |split| == |sizes| && Split(split, n) && forall s :: 0 <= s < n ==> Load(sizes, split, s) <= best
  }

  lemma AchievesBefore(sizes: seq<nat>, split: seq<nat>, n: nat, best: nat)
    requires sizes != [] && Achieves(sizes, split, n, best)
    ensures Achieves(sizes[..|sizes| - 1], split[..|sizes| - 1], n, best)
    ensures sizes[|sizes| - 1] <= best
  {
    var k := |sizes| - 1;
    forall s | 0 <= s < n ensures Load(sizes[..k], split[..k], s) <= best {
      assert Load(sizes[..k], split[..k], s) <= Load(sizes, split, s);
    }
    LoadGrows(sizes, split, split[k], k);
  }

  /** No shard carries less than `light`. */
  ghost predicate AtLeast(sizes: seq<nat>, assign: seq<nat>, n: nat, light: nat)
    requires |sizes| == |assign|
  {
    forall s :: 0 <= s < n ==> light <= Load(sizes, assign, s)
  }

  /** The shard and load that the next file is placed on. */
  lemma Placed(sizes: seq<nat>, n: nat) returns (l: nat, light: nat)
    requires n > 0 && sizes != []
    ensures var k := |sizes| - 1; var before := Greedy(sizes[..k], n);
            && l < n && light == Load(sizes[..k], before, l)
            && AtLeast(sizes[..k], before, n, light)
    ensures var k := |sizes| - 1;
            forall s: nat {:trigger Load(sizes, Greedy(sizes, n), s)} ::
              Load(sizes, Greedy(sizes, n), s) ==
              if s == l then light + sizes[k] else Load(sizes[..k], Greedy(sizes[..k], n), s)
  {
    var k := |sizes| - 1;
    var before := Greedy(sizes[..k], n);
    var loads := Loads(sizes[..k], before, n);
    l := Lightest(loads, n);
    light := loads[l];
    forall s | 0 <= s < n ensures light <= Load(sizes[..k], before, s) {
      assert loads[l] <= loads[s];
    }
    assert Greedy(sizes, n)[..k] == before;
  }

  /** The lightest shard weighs no more than the average without the file about to be placed. */
  lemma LightIsLight(sizes: seq<nat>, n: nat, split: seq<nat>, best: nat, light: nat)
    requires n > 0 && sizes != [] && Achieves(sizes, split, n, best)
    requires AtLeast(sizes[..|sizes| - 1], Greedy(sizes[..|sizes| - 1], n), n, light)
    ensures n * light + sizes[|sizes| - 1] <= n * best
  {
    var k := |sizes| - 1;
    TotalAtLeast(sizes[..k], Greedy(sizes[..k], n), n, light);
    Conserved(sizes[..k], Greedy(sizes[..k], n), n);
    TotalAtMost(sizes, split, n, best);
    Conserved(sizes, split, n);
  }

  /** List scheduling, in any order: the heaviest of n shards is within 2 - 1/n of the best split's. */
  lemma {:induction false} WithinTwo(sizes: seq<nat>, n: nat, split: seq<nat>, best: nat)
    requires n > 0 && Achieves(sizes, split, n, best)
    ensures forall s :: 0 <= s < n ==> n * Load(sizes, Greedy(sizes, n), s) <= (2 * n - 1) * best
  {
    if sizes != [] {
      var k := |sizes| - 1;
      AchievesBefore(sizes, split, n, best);
      WithinTwo(sizes[..k], n, split[..k], best);
      var l, light := Placed(sizes, n);
      LightIsLight(sizes, n, split, best, light);
      AnyNext(n, light, sizes[k], best);
    } else {
      assert (2 * n - 1) * best >= 0;
    }
  }

  predicate Descending(sizes: seq<nat>) {
    forall i, j :: 0 <= i < j < |sizes| ==> sizes[i] >= sizes[j]
  }

  /** At most two files fit where three of them would weigh more than the load allows. */
  lemma AtMostTwo(sizes: seq<nat>, assign: seq<nat>, s: nat, best: nat)
    requires |sizes| == |assign| && Load(sizes, assign, s) <= best
    requires forall j :: 0 <= j < |sizes| ==> 3 * sizes[j] > best
    ensures Count(assign, s) <= 2
  {
    var least := best / 3 + 1;
    AllAtLeast(sizes, assign, s, least);
    if Count(assign, s) >= 3 {
      Monotone(least, 3, Count(assign, s));
    }
  }

  /** Two for a file alone on its shard, one for every other file. */
  function Alone(assign: seq<nat>): seq<nat> {
    seq(|assign|, j requires 0 <= j < |assign| => if Count(assign, assign[j]) == 1 then 2 else 1)
  }

  /**
    Files of more than a third of the best load: if the next one fitted nowhere, every shard would
    hold one file too big to share or two files, and any split would need one shard with three.
   */
  lemma NextFits(sizes: seq<nat>, n: nat, split: seq<nat>, best: nat, light: nat)
    requires n > 0 && sizes != [] && Achieves(sizes, split, n, best) && Descending(sizes)
    requires forall j :: 0 <= j < |sizes| ==> 3 * sizes[j] > best
    requires AtLeast(sizes[..|sizes| - 1], Greedy(sizes[..|sizes| - 1], n), n, light)
    requires Achieves(sizes[..|sizes| - 1], Greedy(sizes[..|sizes| - 1], n), n, best)
    ensures light + sizes[|sizes| - 1] <= best
  {
    var k := |sizes| - 1;
    var before, assign := sizes[..k], Greedy(sizes[..k], n);
    AchievesBefore(sizes, split, n, best);
    if light + sizes[k] > best {
      var weights := Alone(assign);
      forall s | 0 <= s < n ensures Load(weights, assign, s) == 2 {
        AtMostTwo(before, assign, s, best);
        GreedyWeighsTwo(before, assign, s, light);
      }
      TotalAtLeast(weights, assign, n, 2);
      Conserved(weights, assign, n);
      var all := weights + [1];
      assert all[..k] == weights;
      forall s | 0 <= s < n ensures Load(all, split, s) <= 2 {
        AtMostTwo(sizes, split, s, best);
        SplitWeighsTwo(sizes, assign, split, n, s, best, light);
      }
      TotalAtMost(all, split, n, 2);
      Conserved(all, split, n);
    }
  }

  lemma {:induction false} LoadNeedsFile(weights: seq<nat>, assign: seq<nat>, s: nat)
    requires |weights| == |assign|
    ensures Count(assign, s) == 0 ==> Load(weights, assign, s) == 0
  {
    if weights != [] {
      CountSnoc(assign, s);
      LoadNeedsFile(weights[..|weights| - 1], assign[..|weights| - 1], s);
    }
  }

  lemma {:induction false} LoadOfOne(weights: seq<nat>, assign: seq<nat>, s: nat, j: nat)
    requires |weights| == |assign| && j < |assign| && assign[j] == s && Count(assign, s) == 1
    ensures Load(weights, assign, s) == weights[j]
  {
    var k := |weights| - 1;
    CountSnoc(assign, s);
    if j == k {
      LoadNeedsFile(weights[..k], assign[..k], s);
    } else {
      LoadAtLeast(Ones(k), assign[..k], s, j, 0);
      LoadOfOne(weights[..k], assign[..k], s, j);
    }
  }

  lemma GreedyWeighsTwo(sizes: seq<nat>, assign: seq<nat>, s: nat, light: nat)
    requires |sizes| == |assign| && Count(assign, s) <= 2 && 0 < light <= Load(sizes, assign, s)
    ensures Load(Alone(assign), assign, s) == 2
  {
    LoadNeedsFile(sizes, assign, s);
    var c := if Count(assign, s) == 1 then 2 else 1;
    LoadAtMost(Alone(assign), assign, s, c);
    AllAtLeast(Alone(assign), assign, s, c);
  }

  /** File `j`, alone on its shard in `assign`, is on shard `s` of `split`. */
  ghost predicate Sole(assign: seq<nat>, split: seq<nat>, s: nat, j: nat) {
    j < |assign| && j < |split| && split[j] == s && Count(assign, assign[j]) == 1
  }

  lemma SplitWeighsTwo(sizes: seq<nat>, assign: seq<nat>, split: seq<nat>, n: nat, s: nat, best: nat, light: nat)
    requires |sizes| == |split| == |assign| + 1 && Descending(sizes)
    requires Load(sizes, split, s) <= best < light + sizes[|assign|] && Count(split, s) <= 2
    requires Split(assign, n) && AtLeast(sizes[..|assign|], assign, n, light)
    ensures Load(Alone(assign) + [1], split, s) <= 2
  {
    var k, all := |assign|, Alone(assign) + [1];
    if j: nat :| Sole(assign, split, s, j) {
      TooBigToShare(sizes, assign, split, n, s, j, best, light);
      LoadAtMost(all, split, s, 2);
    } else {
      assert forall j: nat :: j < k && split[j] == s ==> !Sole(assign, split, s, j);
      LoadAtMost(all, split, s, 1);
    }
  }

  /** A file alone on its shard weighs at least `light`, so no other file fits beside it. */
  lemma TooBigToShare(
    sizes: seq<nat>, assign: seq<nat>, split: seq<nat>, n: nat, s: nat, j: nat, best: nat, light: nat)
    requires |sizes| == |split| == |assign| + 1 && Descending(sizes)
    requires Load(sizes, split, s) <= best < light + sizes[|assign|] && Count(split, s) <= 2
    requires Split(assign, n) && AtLeast(sizes[..|assign|], assign, n, light) && Sole(assign, split, s, j)
    ensures Count(split, s) <= 1
  {
    var k := |assign|;
    LoadOfOne(sizes[..k], assign, assign[j], j);
    var p, c := sizes[k], Count(split, s);
    assert c == 2 ==> p * (c - 1) == p;
    LoadAtLeast(sizes, split, s, j, p);
  }

  lemma AllBig(sizes: seq<nat>, best: nat)
    requires sizes != [] && Descending(sizes) && 3 * sizes[|sizes| - 1] > best
    ensures forall j :: 0 <= j < |sizes| ==> 3 * sizes[j] > best
  {
  }

  /** When even the smallest file weighs more than a third of the best load, the greedy split achieves it. */
  lemma {:induction false} BigFiles(sizes: seq<nat>, n: nat, split: seq<nat>, best: nat)
    requires n > 0 && Achieves(sizes, split, n, best) && Descending(sizes)
    requires forall j :: 0 <= j < |sizes| ==> 3 * sizes[j] > best
    ensures forall s :: 0 <= s < n ==> Load(sizes, Greedy(sizes, n), s) <= best
  {
    if sizes != [] {
      var k := |sizes| - 1;
      AchievesBefore(sizes, split, n, best);
      BigFiles(sizes[..k], n, split[..k], best);
      var l, light := Placed(sizes, n);
      NextFits(sizes, n, split, best, light);
    }
  }

  /** A load within 4/3 - 1/(3n) of `best`. */
  predicate FourThirds(load: nat, n: nat, best: nat) {
    3 * n * load <= (4 * n - 1) * best
  }

  lemma NextWithin(sizes: seq<nat>, n: nat, split: seq<nat>, best: nat, light: nat)
    requires n > 0 && sizes != [] && Achieves(sizes, split, n, best) && Descending(sizes)
    requires AtLeast(sizes[..|sizes| - 1], Greedy(sizes[..|sizes| - 1], n), n, light)
    ensures FourThirds(light + sizes[|sizes| - 1], n, best)
  {
    var k := |sizes| - 1;
    if 3 * sizes[k] <= best {
      LightIsLight(sizes, n, split, best, light);
      SmallNext(n, light, sizes[k], best);
    } else {
      AllBig(sizes, best);
      AchievesBefore(sizes, split, n, best);
      BigFiles(sizes[..k], n, split[..k], best);
      NextFits(sizes, n, split, best, light);
      Scaled(n, light + sizes[k], best);
    }
  }

  /** Largest first: the heaviest of n shards is within 4/3 - 1/(3n) of the best split's. */
  lemma {:induction false} WithinFourThirds(sizes: seq<nat>, n: nat, split: seq<nat>, best: nat)
    requires n > 0 && Achieves(sizes, split, n, best) && Descending(sizes)
    ensures forall s :: 0 <= s < n ==> FourThirds(Load(sizes, Greedy(sizes, n), s), n, best)
  {
    if sizes == [] {
      Scaled(n, 0, best);
    } else {
      var k := |sizes| - 1;
      AchievesBefore(sizes, split, n, best);
      WithinFourThirds(sizes[..k], n, split[..k], best);
      var l, light := Placed(sizes, n);
      NextWithin(sizes, n, split, best, light);
    }
  }

  lemma SmallNext(n: nat, light: nat, size: nat, best: nat)
    requires n > 0 && n * light + size <= n * best && 3 * size <= best
    ensures 3 * n * (light + size) <= (4 * n - 1) * best
  {
    var m := n - 1;
    Monotone(m, 3 * size, best);
    Distributes(n, light, size);
    var a, b, c, d := n * light, m * size, m * best, n * best;
    assert m * (3 * size) == 3 * b;
    assert n * size == b + size;
    assert 3 * n * (light + size) == 3 * (n * (light + size)) == 3 * (a + b + size);
    assert (4 * n - 1) * best == 3 * d + c;
  }

  lemma Monotone(n: nat, a: nat, b: nat)
    requires a <= b
    ensures n * a <= n * b
  {
  }

  lemma Distributes(n: nat, a: nat, b: nat)
    ensures n * (a + b) == n * a + n * b
  {
  }

  lemma AnyNext(n: nat, light: nat, size: nat, best: nat)
    requires n > 0 && n * light + size <= n * best && size <= best
    ensures n * (light + size) <= (2 * n - 1) * best
  {
    var m := n - 1;
    Monotone(m, size, best);
    Distributes(n, light, size);
    assert n * size == m * size + size;
    assert (2 * n - 1) * best == n * best + m * best;
  }

  lemma Scaled(n: nat, load: nat, best: nat)
    requires n > 0 && load <= best
    ensures 3 * n * load <= (4 * n - 1) * best
  {
    assert 3 * n * load <= 3 * n * best;
    assert (4 * n - 1) * best == 3 * n * best + (n - 1) * best;
  }

  /** Any two shards differ by at most the largest file. */
  lemma {:induction false} Balanced(sizes: seq<nat>, n: nat, largest: nat)
    requires n > 0 && forall j :: 0 <= j < |sizes| ==> sizes[j] <= largest
    ensures var assign := Greedy(sizes, n);
            forall s, t :: 0 <= s < n && 0 <= t < n ==> Load(sizes, assign, s) <= Load(sizes, assign, t) + largest
  {
    if sizes != [] {
      Balanced(sizes[..|sizes| - 1], n, largest);
      var l, light := Placed(sizes, n);
    }
  }

  /** With enough files, none empty, no shard stays empty: the first n files go one to each. */
  lemma {:induction false} FirstOnes(sizes: seq<nat>, n: nat)
    requires n > 0 && |sizes| <= n && forall j :: 0 <= j < |sizes| ==> sizes[j] > 0
    ensures forall j :: 0 <= j < |sizes| ==> Greedy(sizes, n)[j] == j
    ensures forall s: nat :: Load(sizes, Greedy(sizes, n), s) == if s < |sizes| then sizes[s] else 0
  {
    if sizes != [] {
      var k := |sizes| - 1;
      FirstOnes(sizes[..k], n);
      var before := Greedy(sizes[..k], n);
      var loads := Loads(sizes[..k], before, n);
      var l := Lightest(loads, n);
      assert loads[k] == 0;
      assert loads[l] == 0;
      assert l == k;
      assert Greedy(sizes, n) == before + [k];
    }
  }

  lemma {:induction false} NoneEmpty(sizes: seq<nat>, n: nat)
    requires 0 < n <= |sizes| && forall j :: 0 <= j < |sizes| ==> sizes[j] > 0
    ensures forall s :: 0 <= s < n ==> s in Greedy(sizes, n)
  {
    if |sizes| == n {
      FirstOnes(sizes, n);
      forall s | 0 <= s < n ensures s in Greedy(sizes, n) {
        assert Greedy(sizes, n)[s] == s;
      }
    } else {
      NoneEmpty(sizes[..|sizes| - 1], n);
      assert Greedy(sizes, n)[..|sizes| - 1] == Greedy(sizes[..|sizes| - 1], n);
    }
  }
}
