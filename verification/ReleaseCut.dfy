/** When exactly a cut is accepted, what it declares, and when exactly an upgrade runs unattended. */
module ReleaseCut {
  import opened Text
  import opened Sorting
  import opened Semver
  import opened MigrationOrder
  import opened ReleaseHistory
  import opened UpgradeOrder

  // ---- the release a cut is compared with ----

  /** Tag `base` is the first of the newest stable ones. */
  predicate NewestStable(h: History, base: nat) {
    && base < |h| && h[base].version.Stable()
    && (forall i :: 0 <= i < |h| && h[i].version.Stable() ==> !Older(h[base].version, h[i].version))
    && (forall i :: 0 <= i < base && h[i].version.Stable() ==> Older(h[i].version, h[base].version))
  }

  /** Of equal ones the first is taken. */
  lemma {:induction false} PreviousStableFirst(h: History, current: Option<Version>)
    ensures match PreviousStable(h, current)
            case None => true
            case Some(k) =>
              forall i :: 0 <= i < k && h[i].version.Stable() &&
                          (current.None? || Older(h[i].version, current.value)) ==>
                Older(h[i].version, h[k].version)
  {
    if h != [] {
      var k, front := |h| - 1, h[..|h| - 1];
      PreviousStableFirst(front, current);
      PreviousStableIs(front, current);
      var before := PreviousStable(front, current);
      if before.Some? && PreviousStable(h, current) == Some(k) {
        assert before.value < k && Older(h[before.value].version, h[k].version);
        forall i | 0 <= i < k && h[i].version.Stable() && (current.None? || Older(h[i].version, current.value))
          ensures Older(h[i].version, h[k].version)
        {
          assert front[i] == h[i] && front[before.value] == h[before.value];
          assert !Older(front[before.value].version, front[i].version);
          NotOlderTrans(h[i].version, h[before.value].version, h[k].version);
        }
      }
    }
  }

  lemma NotOlderTrans(a: Version, b: Version, c: Version)
    ensures !Older(b, a) && Older(b, c) ==> Older(a, c)
  {
    CompareOrder(a, b);
    CompareOrder(b, a);
    if Older(a, b) && Older(b, c) {
      CompareTrans(a, b, c);
    }
  }

  /** Where every tag is older than the version, its base is the newest stable one. */
  lemma BaseIs(h: History, current: Option<Version>)
    requires current.Some? ==> forall i :: 0 <= i < |h| ==> Older(h[i].version, current.value)
    ensures match PreviousStable(h, current)
            case None => forall i :: 0 <= i < |h| ==> !h[i].version.Stable()
            case Some(k) => NewestStable(h, k)
  {
    PreviousStableIs(h, current);
    PreviousStableFirst(h, current);
  }

  lemma OneNewest(h: History, a: nat, b: nat)
    requires NewestStable(h, a) && NewestStable(h, b)
    ensures a == b
  {
    CompareOrder(h[a].version, h[b].version);
  }

  // ---- acceptance ----

  /** A file that is new since the tag. */
  predicate NewFile(tag: Tag, r: Request, f: Migration) {
    f in r.tree && f !in tag.tree
  }

  /** A contract migration is new, and the request does not acknowledge it. */
  ghost predicate Unacknowledged(c: Checks, tag: Tag, r: Request) {
    !r.ackContract && exists f :: NewFile(tag, r, f) && c.contract(f)
  }

  /** A numbered file is new that sorts below one the tag shipped. */
  ghost predicate Misordered(tag: Tag, r: Request) {
    exists db, x, y ::
      && db in DATABASES && Migration(db, x) in tag.tree && NewFile(tag, r, Migration(db, y))
      && Numbered(x) && Numbered(y) && !StringLeq(x, y)
  }

  /** The infra contract falls, or its files change while it stays and nobody says that is neutral. */
  predicate InfraWrong(c: Checks, tag: Tag, r: Request) {
    && tag.infra.Some?
    && (r.infra < tag.infra.value
        || (r.infra == tag.infra.value && c.infraChanged(tag.tree, r.tree) && !r.ackInfra))
  }

  ghost predicate Objection(c: Checks, tag: Tag, r: Request) {
    Unacknowledged(c, tag, r) || Misordered(tag, r) || InfraWrong(c, tag, r)
  }

  lemma OrderIff(tag: Tag, r: Request)
    ensures InOrder(tag.tree, r.tree - tag.tree) <==> !Misordered(tag, r)
  {
    forall db | db in DATABASES ensures HopInOrder(tag.tree, r.tree, db) <==> NoneBelow(tag.tree, r.tree, db) {
      HopIff(tag.tree, r.tree, db);
    }
    if Misordered(tag, r) {
      var db, x, y :| && db in DATABASES && Migration(db, x) in tag.tree && NewFile(tag, r, Migration(db, y))
                      && Numbered(x) && Numbered(y) && !StringLeq(x, y);
      assert !NoneBelow(tag.tree, r.tree, db);
    }
  }

  lemma ChecksIff(c: Checks, h: History, base: nat, r: Request)
    requires base < |h|
    ensures ChecksPass(c, h, base, r) <==> !Objection(c, h[base], r)
  {
    OrderIff(h[base], r);
    assert HasContract(c, Added(h, base, r.tree)) <==> exists f :: NewFile(h[base], r, f) && c.contract(f);
  }

  /**
    A cut is refused exactly when there is no stable tag, when a tag is at or above its version, or
    when the newest stable one gives reason to.
   */
  lemma CutRefusedIff(c: Checks, h: History, r: Request)
    ensures Cut(c, h, r) == None <==>
            || (forall i :: 0 <= i < |h| ==> !h[i].version.Stable())
            || (exists i :: 0 <= i < |h| && !Older(h[i].version, r.version))
            || (exists base: nat :: NewestStable(h, base) && Objection(c, h[base], r))
  {
    BaseIs(h, None);
    match PreviousStable(h, None)
    case None =>
    case Some(current) =>
      if forall i :: 0 <= i < |h| ==> Older(h[i].version, r.version) {
        NewerIsGreater(h[current].version, r.version);
        BaseIs(h, Some(r.version));
        var base := PreviousStable(h, Some(r.version)).value;
        ChecksIff(c, h, base, r);
        forall b: nat | NewestStable(h, b) ensures b == base {
          OneNewest(h, b, base);
        }
      }
  }

  /** What an accepted cut tags: what was asked for, with the contract release it must declare. */
  lemma CutTags(c: Checks, h: History, r: Request, base: nat)
    requires Cut(c, h, r).Some? && NewestStable(h, base)
    ensures var t := Cut(c, h, r).value;
            && t.version == r.version && t.tree == r.tree && t.infra == Some(r.infra)
            && t.meta == Some(
                 if exists f :: NewFile(h[base], r, f) && c.contract(f) then Some(r.version)
                 else if h[base].meta.None? then Some(LAST_CONTRACT_BEFORE_MANIFESTS)
                 else h[base].meta.value)
  {
    CutRefusedIff(c, h, r);
    BaseIs(h, Some(r.version));
    OneNewest(h, base, PreviousStable(h, Some(r.version)).value);
    assert HasContract(c, Added(h, base, r.tree)) <==> exists f :: NewFile(h[base], r, f) && c.contract(f);
  }

  // ---- what releases declare over a history ----

  lemma CutAt(c: Checks, h: History, legacy: nat, n: nat) returns (base: nat, r: Request)
    requires Reachable(c, h, legacy) && legacy <= n < |h|
    ensures NewestStable(h[..n], base) && Cut(c, h[..n], r) == Some(h[n])
  {
    assert CutHere(c, h, n);
    r :| Cut(c, h[..n], r) == Some(h[n]);
    CutRefusedIff(c, h[..n], r);
    BaseIs(h[..n], Some(r.version));
    base := PreviousStable(h[..n], Some(r.version)).value;
  }

  /** Tag `n` adds a contract migration to the newest stable release before it. */
  ghost predicate AddsContract(c: Checks, h: History, n: nat) {
    n < |h| && exists base: nat :: NewestStable(h[..n], base) && HasContract(c, h[n].tree - h[base].tree)
  }

  lemma AddsIff(c: Checks, h: History, n: nat, base: nat)
    requires n < |h| && NewestStable(h[..n], base)
    ensures AddsContract(c, h, n) <==> HasContract(c, h[n].tree - h[base].tree)
  {
    forall b: nat | NewestStable(h[..n], b) ensures b == base {
      OneNewest(h[..n], b, base);
    }
  }

  lemma TagIs(c: Checks, h: History, legacy: nat, n: nat) returns (base: nat)
    requires Reachable(c, h, legacy) && legacy <= n < |h|
    ensures NewestStable(h[..n], base)
    ensures h[n].infra.Some? && h[n].meta.Some?
    ensures h[n].meta.value == if AddsContract(c, h, n) then Some(h[n].version)
                               else if h[base].meta.None? then Some(LAST_CONTRACT_BEFORE_MANIFESTS)
                               else h[base].meta.value
  {
    var r: Request;
    base, r := CutAt(c, h, legacy, n);
    CutTags(c, h[..n], r, base);
    AddsIff(c, h, n, base);
    assert h[..n][base] == h[base];
    assert HasContract(c, h[n].tree - h[base].tree) <==> exists f :: NewFile(h[base], r, f) && c.contract(f);
  }

  /** A declared contract release is a tag that adds a contract migration, or the last one before manifests. */
  lemma {:induction false} DeclaredIs(c: Checks, h: History, legacy: nat, j: nat)
    requires Reachable(c, h, legacy) && legacy <= j < |h|
    ensures h[j].infra.Some? && h[j].meta.Some?
    ensures match h[j].meta.value
            case None => true
            case Some(v) =>
              || v == LAST_CONTRACT_BEFORE_MANIFESTS
              || exists n: nat :: legacy <= n <= j && AddsContract(c, h, n) && h[n].version == v
    decreases j
  {
    var base := TagIs(c, h, legacy, j);
    if base >= legacy {
      DeclaredIs(c, h, legacy, base);
    } else {
      assert h[..legacy][base] == h[base];
    }
  }

  /**
    On a stable release from v0.10.42 on, a later one installs unattended exactly when it is newer,
    the installed one is new enough for it, the infra contract does not rise, and no contract
    migration was added in between: nothing unsafe is let through, and nothing safe is held back.
   */
  lemma AutoInstallIff(c: Checks, h: History, legacy: nat, i: nat, j: nat, minFrom: Version)
    requires Reachable(c, h, legacy) && i < j < |h| && legacy <= j
    requires h[i].version.Stable() && !Older(h[i].version, LAST_CONTRACT_BEFORE_MANIFESTS)
    ensures h[j].infra.Some? && h[j].meta.Some?
    ensures AssessAutoInstall(c, h, i, j, AddsContract(c, h, j), minFrom) == Auto <==>
            && !Older(h[i].version, minFrom)
            && (h[i].infra.Some? ==> h[j].infra.value <= h[i].infra.value)
            && Untouched(c, h, i, j)
  {
    var _ := TagIs(c, h, legacy, j);
    Increasing(c, h, legacy, i, j);
    if Untouched(c, h, i, j) {
      UntouchedDeclares(c, h, legacy, i, j);
    }
    if AssessAutoInstall(c, h, i, j, AddsContract(c, h, j), minFrom) == Auto {
      AutoInstallSafe(c, h, legacy, i, j, AddsContract(c, h, j), minFrom);
    }
  }

  lemma UntouchedDeclares(c: Checks, h: History, legacy: nat, i: nat, j: nat)
    requires Reachable(c, h, legacy) && i < j < |h| && legacy <= j && h[j].meta.Some?
    requires h[i].version.Stable() && !Older(h[i].version, LAST_CONTRACT_BEFORE_MANIFESTS)
    requires Untouched(c, h, i, j)
    ensures ContractFree(c, h, i, j, AddsContract(c, h, j))
  {
    DeclaredIs(c, h, legacy, j);
    forall n: nat | i < n <= j && legacy <= n ensures !AddsContract(c, h, n) {
      UntouchedAdds(c, h, legacy, i, n, j);
    }
    match h[j].meta.value
    case None =>
    case Some(v) =>
      if v != LAST_CONTRACT_BEFORE_MANIFESTS {
        var n: nat :| legacy <= n <= j && AddsContract(c, h, n) && h[n].version == v;
        if n < i {
          Increasing(c, h, legacy, n, i);
        }
        CompareOrder(h[i].version, h[n].version);
      }
  }

  /** A tag after a stable one adds to a release not before it. */
  lemma UntouchedAdds(c: Checks, h: History, legacy: nat, i: nat, n: nat, j: nat)
    requires Reachable(c, h, legacy) && i < n <= j < |h| && legacy <= n
    requires h[i].version.Stable() && Untouched(c, h, i, j)
    ensures !AddsContract(c, h, n)
  {
    var base := TagIs(c, h, legacy, n);
    AddsIff(c, h, n, base);
    assert h[..n][i] == h[i] && h[..n][base] == h[base];
    if base < i {
      Increasing(c, h, legacy, base, i);
    } else if i < base {
      Increasing(c, h, legacy, i, base);
    }
    if n < j {
      Increasing(c, h, legacy, n, j);
    }
    assert h[n].tree - h[base].tree <= h[j].tree - h[i].tree;
  }
}
