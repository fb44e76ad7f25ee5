/** The order in which an install that follows the releases of a history applies their migrations. */
module UpgradeOrder {
  import opened Text
  import opened Sorting
  import opened Semver
  import opened MigrationOrder
  import opened ReleaseHistory

  // ---- listings of trees ----

  lemma ListingMembers(files: set<string>)
    ensures forall f :: f in Listing(files) <==> f in files
  {
    assert forall f :: f in Listing(files) <==> f in multiset(Listing(files));
  }

  /** What a fresh install of a tree applies to a database. */
  ghost function FreshOf(tree: set<Migration>, db: string): seq<string> {
    Fresh(Listing(FilesOf(tree, db)))
  }

  /** What an upgrade applies that finds the migrations of `had` applied. */
  ghost function UpgradeOf(had: set<Migration>, tree: set<Migration>, db: string): seq<string> {
    FreshOf(tree - had, db)
  }

  /** The order check of an upgrade, for one database. */
  ghost predicate HopInOrder(had: set<Migration>, tree: set<Migration>, db: string) {
    OutOfOrder(Listing(FilesOf(had, db)), Listing(FilesOf(tree - had, db))) == []
  }

  /** No added numbered file sorts below a shipped one. */
  ghost predicate NoneBelow(had: set<Migration>, tree: set<Migration>, db: string) {
    forall x, y :: Migration(db, x) in had && Migration(db, y) in tree - had && Numbered(x) && Numbered(y) ==>
      StringLeq(x, y)
  }

  lemma HopIff(had: set<Migration>, tree: set<Migration>, db: string)
    ensures HopInOrder(had, tree, db) <==> NoneBelow(had, tree, db)
  {
    var shipped, added := FilesOf(had, db), FilesOf(tree - had, db);
    ListingMembers(shipped);
    ListingMembers(added);
    NothingReportedIff(Listing(shipped), Listing(added));
    assert forall x :: x in shipped <==> Migration(db, x) in had;
    assert forall y :: y in added <==> Migration(db, y) in tree - had;
  }

  /** Two hops in order make one hop in order. */
  lemma HopsJoin(a: set<Migration>, b: set<Migration>, c: set<Migration>, db: string)
    requires a <= b <= c && NoneBelow(a, b, db) && NoneBelow(b, c, db)
    ensures NoneBelow(a, c, db)
  {
  }

  // ---- installs ----

  /** The tags an install stops at, in order. */
  predicate StopsAt(h: History, stops: seq<nat>) {
    && (forall k :: 0 <= k < |stops| ==> stops[k] < |h|)
    && (forall k, m :: 0 <= k < m < |stops| ==> stops[k] < stops[m])
  }

  ghost function TreeAt(h: History, stops: seq<nat>): set<Migration>
    requires StopsAt(h, stops)
  {
    if stops == [] then {} else h[stops[|stops| - 1]].tree
  }

  /** What the install applies: at each stop, the migrations it does not have, as a fresh install sorts them. */
  ghost function AppliedAt(h: History, stops: seq<nat>, db: string): seq<string>
    requires StopsAt(h, stops)
  {
    if stops == [] then []
    else
      var before := stops[..|stops| - 1];
      AppliedAt(h, before, db) + UpgradeOf(TreeAt(h, before), TreeAt(h, stops), db)
  }

  /** Every hop of the install, from its first stop on, is in order. */
  ghost predicate HopsInOrder(h: History, stops: seq<nat>, db: string)
    requires StopsAt(h, stops)
  {
    forall k :: 0 < k < |stops| ==> HopInOrder(h[stops[k - 1]].tree, h[stops[k]].tree, db)
  }

  /** Trees only grow. */
  ghost predicate Growing(h: History) {
    forall i, j :: 0 <= i < j < |h| ==> h[i].tree <= h[j].tree
  }

  lemma FilesGrow(had: set<Migration>, tree: set<Migration>, db: string)
    requires had <= tree
    ensures multiset(Listing(FilesOf(tree, db))) ==
            multiset(Listing(FilesOf(had, db)) + Listing(FilesOf(tree - had, db)))
  {
    var a, b := FilesOf(had, db), FilesOf(tree - had, db);
    assert FilesOf(tree, db) == a + b && a !! b;
    assert multiset(a + b) == multiset(a) + multiset(b);
  }

  lemma {:induction false} NumberedSame(a: seq<string>, b: seq<string>)
    requires multiset(a) == multiset(b)
    ensures multiset(OnlyNumbered(a)) == multiset(OnlyNumbered(b))
  {
    forall f ensures multiset(OnlyNumbered(a))[f] == multiset(OnlyNumbered(b))[f] {
      NumberedCount(a, f);
      NumberedCount(b, f);
    }
  }

  lemma {:induction false} NumberedCount(a: seq<string>, f: string)
    ensures multiset(OnlyNumbered(a))[f] == if Numbered(f) then multiset(a)[f] else 0
  {
    if a != [] {
      var front, x := a[..|a| - 1], a[|a| - 1];
      assert a == front + [x];
      NumberedCount(front, f);
    }
  }

  /** A hop is in order exactly when it continues a fresh install. */
  lemma HopExact(had: set<Migration>, tree: set<Migration>, db: string)
    requires had <= tree
    ensures HopInOrder(had, tree, db) <==> FreshOf(tree, db) == FreshOf(had, db) + UpgradeOf(had, tree, db)
  {
    var a, b := Listing(FilesOf(had, db)), Listing(FilesOf(tree - had, db));
    FilesGrow(had, tree, db);
    NumberedSame(Listing(FilesOf(tree, db)), a + b);
    StringOrder();
    SortPermutation(OnlyNumbered(Listing(FilesOf(tree, db))), OnlyNumbered(a + b), StringLeq);
    ReportExact(a, b);
  }

  lemma NothingFirst(tree: set<Migration>, db: string)
    ensures UpgradeOf({}, tree, db) == FreshOf(tree, db)
  {
    assert tree - {} == tree;
  }

  lemma FreshParts(had: set<Migration>, tree: set<Migration>, db: string)
    requires had <= tree
    ensures multiset(FreshOf(tree, db)) == multiset(FreshOf(had, db)) + multiset(UpgradeOf(had, tree, db))
  {
    var a, b := Listing(FilesOf(had, db)), Listing(FilesOf(tree - had, db));
    FilesGrow(had, tree, db);
    NumberedSame(Listing(FilesOf(tree, db)), a + b);
    NumberedAppend(a, b);
    SortMultiset(OnlyNumbered(Listing(FilesOf(tree, db))), StringLeq);
    SortMultiset(OnlyNumbered(a), StringLeq);
    SortMultiset(OnlyNumbered(b), StringLeq);
  }

  lemma NothingFresh(db: string)
    ensures FreshOf({}, db) == []
  {
    assert FilesOf({}, db) == {};
    assert |multiset(Listing({}))| == 0;
  }

  lemma TreesAt(h: History, stops: seq<nat>)
    requires StopsAt(h, stops) && stops != [] && Growing(h)
    ensures TreeAt(h, stops[..|stops| - 1]) <= TreeAt(h, stops)
  {
  }

  /** An install applies exactly the migrations of its last stop. */
  lemma {:induction false} AppliedAll(h: History, stops: seq<nat>, db: string)
    requires StopsAt(h, stops) && Growing(h)
    ensures multiset(AppliedAt(h, stops, db)) == multiset(FreshOf(TreeAt(h, stops), db))
  {
    if stops == [] {
      NothingFresh(db);
    } else {
      var before := stops[..|stops| - 1];
      AppliedAll(h, before, db);
      TreesAt(h, stops);
      FreshParts(TreeAt(h, before), TreeAt(h, stops), db);
    }
  }

  /** A sorted sequence that starts with the elements of `b` starts with `b` sorted. */
  lemma SortedFront(a: seq<string>, more: seq<string>, b: seq<string>)
    requires Sorted(a + more, StringLeq) && Sorted(b, StringLeq) && multiset(a) == multiset(b)
    ensures a == b
  {
    StringOrder();
    forall i, j | 0 <= i < j < |a| ensures StringLeq(a[i], a[j]) {
      assert (a + more)[i] == a[i] && (a + more)[j] == a[j];
    }
    SortedUnique(a, b, StringLeq);
  }

  lemma FreshSorted(tree: set<Migration>, db: string)
    ensures Sorted(FreshOf(tree, db), StringLeq)
  {
    StringOrder();
    SortSorted(OnlyNumbered(Listing(FilesOf(tree, db))), StringLeq);
  }

  /**
    For an install that stops at any tags, pre-releases included: it applies the migrations of each
    database in a fresh install's order exactly when each of its hops is in order.
   */
  lemma {:induction false} InstallInOrderIff(h: History, stops: seq<nat>, db: string)
    requires StopsAt(h, stops) && Growing(h)
    ensures AppliedAt(h, stops, db) == FreshOf(TreeAt(h, stops), db) <==> HopsInOrder(h, stops, db)
  {
    if stops == [] {
      NothingFresh(db);
    } else if |stops| == 1 {
      NothingFirst(TreeAt(h, stops), db);
      assert stops[..0] == [];
    } else {
      var before := stops[..|stops| - 1];
      var had, tree := TreeAt(h, before), TreeAt(h, stops);
      InstallInOrderIff(h, before, db);
      HopsSplit(h, stops, db);
      TreesAt(h, stops);
      HopExact(had, tree, db);
      if AppliedAt(h, stops, db) == FreshOf(tree, db) {
        FreshSorted(tree, db);
        FreshSorted(had, db);
        AppliedAll(h, before, db);
        SortedFront(AppliedAt(h, before, db), UpgradeOf(had, tree, db), FreshOf(had, db));
      }
    }
  }

  lemma HopsSplit(h: History, stops: seq<nat>, db: string)
    requires StopsAt(h, stops) && |stops| >= 2
    ensures var before := stops[..|stops| - 1];
            HopsInOrder(h, stops, db) <==>
            HopsInOrder(h, before, db) && HopInOrder(TreeAt(h, before), TreeAt(h, stops), db)
  {
    var before, n := stops[..|stops| - 1], |stops| - 1;
    assert forall k :: 0 <= k < n ==> before[k] == stops[k];
    if HopsInOrder(h, before, db) && HopInOrder(TreeAt(h, before), TreeAt(h, stops), db) {
      forall k | 0 < k < |stops| ensures HopInOrder(h[stops[k - 1]].tree, h[stops[k]].tree, db) {
        if k < n {
          assert HopInOrder(h[before[k - 1]].tree, h[before[k]].tree, db);
        }
      }
    }
    if HopsInOrder(h, stops, db) {
      assert HopInOrder(h[stops[n - 1]].tree, h[stops[n]].tree, db);
      forall k | 0 < k < n ensures HopInOrder(h[before[k - 1]].tree, h[before[k]].tree, db) {
        assert HopInOrder(h[stops[k - 1]].tree, h[stops[k]].tree, db);
      }
    }
  }

  // ---- over the histories of accepted cuts ----

  lemma ReachableGrows(c: Checks, h: History, legacy: nat)
    requires Reachable(c, h, legacy)
    ensures Growing(h)
  {
    forall i, j | 0 <= i < j < |h| ensures h[i].tree <= h[j].tree {
      Increasing(c, h, legacy, i, j);
    }
  }

  /** No stable release after tag `i` dates from before the checks. */
  predicate Checked(h: History, legacy: nat, i: nat) {
    forall k :: i < k < legacy && k < |h| ==> !h[k].version.Stable()
  }

  /** Every later release continues a stable one in order. */
  lemma {:induction false} StableHop(c: Checks, h: History, legacy: nat, i: nat, j: nat, db: string)
    requires Reachable(c, h, legacy) && i < j < |h| && legacy <= j && db in DATABASES
    requires h[i].version.Stable() && Checked(h, legacy, i)
    ensures NoneBelow(h[i].tree, h[j].tree, db)
    decreases j
  {
    var base := CutInOrder(c, h, legacy, j, db);
    if base > i {
      StableHop(c, h, legacy, i, base, db);
      ReachableGrows(c, h, legacy);
      HopsJoin(h[i].tree, h[base].tree, h[j].tree, db);
    }
  }

  /** An accepted cut continues in order the newest stable release before it. */
  lemma CutInOrder(c: Checks, h: History, legacy: nat, n: nat, db: string) returns (base: nat)
    requires Reachable(c, h, legacy) && legacy <= n < |h| && db in DATABASES
    ensures base < n && h[base].version.Stable() && NoneBelow(h[base].tree, h[n].tree, db)
    ensures forall i :: base < i < n ==> !h[i].version.Stable()
  {
    var k, r := CutBase(c, h, legacy, n);
    base := k;
    assert InOrder(h[base].tree, Added(h, base, r.tree));
    HopIff(h[base].tree, h[n].tree, db);
  }

  /** All stops of the install, but perhaps the last, are stable releases. */
  predicate StableStops(h: History, stops: seq<nat>)
    requires StopsAt(h, stops)
  {
    forall k :: 0 <= k < |stops| - 1 ==> h[stops[k]].version.Stable()
  }

  /**
    Over every history of accepted cuts: an install that follows stable releases applies the
    migrations of each database in a fresh install's order.
   */
  lemma StableInstallsInOrder(c: Checks, h: History, legacy: nat, stops: seq<nat>, db: string)
    requires Reachable(c, h, legacy) && StopsAt(h, stops) && StableStops(h, stops) && db in DATABASES
    requires stops != [] ==> Checked(h, legacy, stops[0])
    requires forall k :: 0 < k < |stops| ==> legacy <= stops[k]
    ensures AppliedAt(h, stops, db) == FreshOf(TreeAt(h, stops), db)
  {
    ReachableGrows(c, h, legacy);
    forall k | 0 < k < |stops| ensures HopInOrder(h[stops[k - 1]].tree, h[stops[k]].tree, db) {
      assert stops[0] <= stops[k - 1] < stops[k];
      StableHop(c, h, legacy, stops[k - 1], stops[k], db);
      HopIff(h[stops[k - 1]].tree, h[stops[k]].tree, db);
    }
    InstallInOrderIff(h, stops, db);
  }

  // ---- an install that stops at a pre-release ----

  /** A pre-release that adds migration `b`, and a stable release after it that adds `a`, below `b`. */
  ghost predicate Pair(h: History, cur: nat, first: Request, second: Request, db: string, a: string, b: string)
    requires cur < |h|
  {
    && !first.version.Stable() && second.version.Stable()
    && Older(h[cur].version, first.version) && Older(first.version, second.version)
    && (forall i :: 0 <= i < |h| ==> Older(h[i].version, first.version) && h[i].tree <= first.tree)
    && first.tree - h[cur].tree == {Migration(db, b)}
    && second.tree == first.tree + {Migration(db, a)} && Migration(db, a) !in first.tree
    && first.infra == second.infra && (h[cur].infra.Some? ==> first.infra == h[cur].infra.value)
    && Numbered(a) && Numbered(b) && Below(a, b)
    && forall x :: Migration(db, x) in h[cur].tree && Numbered(x) ==> StringLeq(x, a)
  }

  lemma PairChecked(c: Checks, h: History, cur: nat, first: Request, second: Request, db: string, a: string, b: string)
    requires NothingElse(c) && cur < |h| && Pair(h, cur, first, second, db, a, b)
    ensures InOrder(h[cur].tree, Added(h, cur, first.tree)) && InOrder(h[cur].tree, Added(h, cur, second.tree))
  {
    forall d | d in DATABASES
      ensures HopInOrder(h[cur].tree, first.tree, d) && HopInOrder(h[cur].tree, second.tree, d)
    {
      HopIff(h[cur].tree, first.tree, d);
      HopIff(h[cur].tree, second.tree, d);
      AboveBoth(h[cur].tree, first.tree, second.tree, db, a, b, d);
    }
  }

  lemma AboveBoth(
    had: set<Migration>, one: set<Migration>, two: set<Migration>, db: string, a: string, b: string, d: string)
    requires one - had == {Migration(db, b)} && two == one + {Migration(db, a)} && Below(a, b)
    requires forall x :: Migration(db, x) in had && Numbered(x) ==> StringLeq(x, a)
    ensures NoneBelow(had, one, d) && NoneBelow(had, two, d)
  {
    forall x, y | Migration(d, x) in had && Migration(d, y) in two - had && Numbered(x) && Numbered(y)
      ensures StringLeq(x, y)
    {
      assert Migration(d, y) in one - had || Migration(d, y) == Migration(db, a);
      StringLeqTrans2(x, a, b);
    }
  }

  lemma StringLeqTrans2(x: string, a: string, b: string)
    requires StringLeq(a, b)
    ensures StringLeq(x, a) ==> StringLeq(x, b)
  {
    if StringLeq(x, a) {
      StringLeqTrans(x, a, b);
    }
  }

  /** Both cuts of such a pair are accepted. */
  lemma PairAccepted(
    c: Checks, h: History, legacy: nat, cur: nat, first: Request, second: Request, db: string, a: string, b: string)
    returns (h1: History, h2: History)
    requires NothingElse(c) && Reachable(c, h, legacy) && PreviousStable(h, None) == Some(cur)
    requires Pair(h, cur, first, second, db, a, b)
    ensures |h1| == |h| + 1 && h1[..|h|] == h && |h2| == |h| + 2 && h2[..|h| + 1] == h1 && Reachable(c, h2, legacy)
    ensures h2[|h|].tree == first.tree && h2[|h| + 1].tree == second.tree
    ensures h2[|h|].version == first.version && h2[|h| + 1].version == second.version
  {
    var n := |h|;
    PairChecked(c, h, cur, first, second, db, a, b);
    PreviousStableIs(h, None);
    FirstAccepted(c, h, legacy, cur, first);
    var t1 := Cut(c, h, first).value;
    h1 := h + [t1];
    ReachableMore(c, h, legacy, t1, first);
    SecondAccepted(c, h, legacy, cur, first, t1, second);
    var t2 := Cut(c, h1, second).value;
    h2 := h1 + [t2];
    ReachableMore(c, h1, legacy, t2, second);
  }

  lemma SecondAccepted(c: Checks, h: History, legacy: nat, cur: nat, first: Request, t1: Tag, second: Request)
    requires NothingElse(c) && Reachable(c, h + [t1], legacy)
    requires PreviousStable(h, None) == Some(cur) && h[cur].version.Stable()
    requires t1.version == first.version && !first.version.Stable() && Older(first.version, second.version)
    requires Older(h[cur].version, first.version) && forall i :: 0 <= i < |h| ==> Older(h[i].version, first.version)
    requires InOrder(h[cur].tree, Added(h, cur, second.tree)) &&
             (h[cur].infra.Some? ==> second.infra == h[cur].infra.value)
    ensures Cut(c, h + [t1], second).Some?
    ensures Cut(c, h + [t1], second).value.version == second.version &&
            Cut(c, h + [t1], second).value.tree == second.tree
  {
    var h1 := h + [t1];
    assert h1[..|h1| - 1] == h && h1[cur] == h[cur];
    assert PreviousStable(h1, None) == Some(cur);
    forall i | 0 <= i < |h1| ensures Older(h1[i].version, second.version) {
      if i < |h| {
        CompareTrans(h[i].version, first.version, second.version);
      }
    }
    CompareTrans(h[cur].version, first.version, second.version);
    assert Added(h1, cur, second.tree) == Added(h, cur, second.tree);
    FirstAccepted(c, h1, legacy, cur, second);
  }

  /** The install ends with what a fresh install of its last stop applies, in the same order. */
  ghost predicate LikeFresh(h: History, stops: seq<nat>, db: string) {
    StopsAt(h, stops) && AppliedAt(h, stops, db) == FreshOf(TreeAt(h, stops), db)
  }

  lemma BadHop(h: History, stops: seq<nat>, k: nat, db: string)
    requires Growing(h) && StopsAt(h, stops) && 0 < k < |stops|
    requires !HopInOrder(h[stops[k - 1]].tree, h[stops[k]].tree, db)
    ensures !LikeFresh(h, stops, db)
  {
    InstallInOrderIff(h, stops, db);
  }

  lemma Swapped(one: set<Migration>, two: set<Migration>, db: string, a: string, b: string)
    requires Migration(db, b) in one && two == one + {Migration(db, a)} && Migration(db, a) !in one
    requires Numbered(a) && Numbered(b) && Below(a, b)
    ensures !HopInOrder(one, two, db)
  {
    StringOrder();
    assert Migration(db, a) in two - one && !StringLeq(b, a);
    HopIff(one, two, db);
  }

  /**
    An install that stops at the pre-release applies `a` after `b`, though both cuts are accepted
    and a fresh install, like one that skips the pre-release, applies it before.
   */
  lemma PreReleaseStopsReorder(
    c: Checks, h: History, legacy: nat, cur: nat, first: Request, second: Request, db: string, a: string, b: string,
    stops: seq<nat>, skipping: seq<nat>)
    returns (all: History)
    requires NothingElse(c) && Reachable(c, h, legacy) && PreviousStable(h, None) == Some(cur) && db in DATABASES
    requires Pair(h, cur, first, second, db, a, b) && Checked(h, legacy, cur)
    requires stops == [cur, |h|, |h| + 1] && skipping == [cur, |h| + 1]
    ensures |all| == |h| + 2 && all[..|h|] == h && Reachable(c, all, legacy)
    ensures StopsAt(all, stops) && !LikeFresh(all, stops, db) && LikeFresh(all, skipping, db)
  {
    var h1, h2 := PairAccepted(c, h, legacy, cur, first, second, db, a, b);
    all := h2;
    assert all[..|h|] == h1[..|h|] == h && all[cur] == h1[cur] == h[cur];
    PairReorders(c, all, legacy, stops, first.tree, second.tree, db, a, b);
    PreviousStableIs(h, None);
    SkippingInOrder(c, h, all, legacy, cur, skipping, db);
  }

  lemma PairReorders(
    c: Checks, all: History, legacy: nat, stops: seq<nat>, one: set<Migration>, two: set<Migration>,
    db: string, a: string, b: string)
    requires Reachable(c, all, legacy) && StopsAt(all, stops) && |stops| == 3
    requires all[stops[1]].tree == one && all[stops[2]].tree == two
    requires Migration(db, b) in one && two == one + {Migration(db, a)} && Migration(db, a) !in one
    requires Numbered(a) && Numbered(b) && Below(a, b)
    ensures !LikeFresh(all, stops, db)
  {
    ReachableGrows(c, all, legacy);
    Swapped(one, two, db, a, b);
    BadHop(all, stops, 2, db);
  }

  lemma SkippingInOrder(c: Checks, h: History, all: History, legacy: nat, cur: nat, skipping: seq<nat>, db: string)
    requires Reachable(c, all, legacy) && |all| == |h| + 2 && all[..|h|] == h && legacy <= |h| && db in DATABASES
    requires cur < |h| && h[cur].version.Stable() && Checked(h, legacy, cur) && skipping == [cur, |h| + 1]
    ensures LikeFresh(all, skipping, db)
  {
    assert all[cur] == h[cur];
    forall k | cur < k < legacy && k < |all| ensures !all[k].version.Stable() {
      assert all[k] == h[k];
    }
    StableInstallsInOrder(c, all, legacy, skipping, db);
  }
}
