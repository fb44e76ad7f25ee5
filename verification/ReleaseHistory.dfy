/** Release cuts as steps of a history, and what holds over every history of accepted cuts. */
module ReleaseHistory {
  import opened Text
  import opened Semver
  import opened MigrationOrder

  /** A migration file of a database. */
  datatype Migration = Migration(database: string, file: string)

  /**
    A release tag: its migrations, the infra contract it carries if any, and the
    `lastContractVersion` of its declaration; `meta` is None where the tag predates declarations.
   */
  datatype Tag = Tag(version: Version, tree: set<Migration>, infra: Option<nat>, meta: Option<Option<Version>>)

  type History = seq<Tag>

  const LAST_CONTRACT_BEFORE_MANIFESTS := Version(0, 10, 42, None)

  predicate Older(a: Version, b: Version) {
    Compare(a, b) < 0
  }

  /** The newest stable tag older than `current`, or at all when there is none to compare with. */
  function PreviousStable(h: History, current: Option<Version>): (i: Option<nat>)
    ensures i.Some? ==> i.value < |h|
  {
    if h == [] then None
    else
      var k, before := |h| - 1, PreviousStable(h[..|h| - 1], current);
      var candidate := h[k].version.Stable() && (current.None? || Older(h[k].version, current.value));
      if candidate && (before.None? || Older(h[before.value].version, h[k].version)) then Some(k) else before
  }

  predicate TaggedAhead(h: History, version: Version) {
    exists i :: 0 <= i < |h| && !Older(h[i].version, version)
  }

  /** The migrations the tag adds to what release `i` shipped. */
  function Added(h: History, i: nat, tree: set<Migration>): set<Migration>
    requires i < |h|
  {
    tree - h[i].tree
  }

  /** What the maintainer asks for, with the working tree it is asked of. */
  datatype Request = Request(version: Version, tree: set<Migration>, infra: nat, ackContract: bool, ackInfra: bool)

  /** The parts of the checks that read files: the lint and the changed paths. */
  datatype Checks = Checks(contract: Migration -> bool, infraChanged: (set<Migration>, set<Migration>) -> bool)

  predicate HasContract(c: Checks, files: set<Migration>) {
    exists f :: f in files && c.contract(f)
  }

  // ---- the migration order check ----

  const DATABASES: seq<string> := ["cms_admin", "cms_public"]

  function FilesOf(tree: set<Migration>, database: string): set<string> {
    set m | m in tree && m.database == database :: m.file
  }

  /** The files of a set, in some order. */
  ghost function Listing(files: set<string>): (r: seq<string>)
    ensures multiset(r) == multiset(files)
  {
    if files == {} then []
    else
      var f :| f in files;
      [f] + Listing(files - {f})
  }

  /** No added migration of any database sorts below one that is shipped. */
  ghost predicate InOrder(shipped: set<Migration>, added: set<Migration>) {
    forall db :: db in DATABASES ==> OutOfOrder(Listing(FilesOf(shipped, db)), Listing(FilesOf(added, db))) == []
  }

  predicate InfraOk(c: Checks, h: History, base: nat, r: Request)
    requires base < |h|
  {
    match h[base].infra
    case None => true
    case Some(previous) =>
      r.infra > previous || (r.infra == previous && (c.infraChanged(h[base].tree, r.tree) ==> r.ackInfra))
  }

  /** The checks of a cut that compare it with the previous stable release. */
  ghost predicate ChecksPass(c: Checks, h: History, base: nat, r: Request)
    requires base < |h|
  {
    && (HasContract(c, Added(h, base, r.tree)) ==> r.ackContract)
    && InOrder(h[base].tree, Added(h, base, r.tree))
    && InfraOk(c, h, base, r)
  }

  function ExpectedLastContract(c: Checks, h: History, base: nat, r: Request): Option<Version>
    requires base < |h|
  {
    if HasContract(c, Added(h, base, r.tree)) then Some(r.version)
    else match h[base].meta
      case None => Some(LAST_CONTRACT_BEFORE_MANIFESTS)
      case Some(last) => last
  }

  /** One cut: None where it is refused. */
  ghost function Cut(c: Checks, h: History, r: Request): Option<Tag> {
    match PreviousStable(h, None)
    case None => None
    case Some(current) =>
      if !SemverGt(r.version, h[current].version) || TaggedAhead(h, r.version) then None
      else match PreviousStable(h, Some(r.version))
        case None => None
        case Some(base) =>
          if !ChecksPass(c, h, base, r) then None
          else Some(Tag(r.version, r.tree, Some(r.infra), Some(ExpectedLastContract(c, h, base, r))))
  }

  // ---- histories ----

  /** Tags from before declarations: no contract migration came after the one recorded for them. */
  ghost predicate Legacy(c: Checks, h: History) {
    && (forall i :: 0 <= i < |h| ==> h[i].meta == None && h[i].infra == None)
    && (forall i, j :: 0 <= i < j < |h| ==> Older(h[i].version, h[j].version) && h[i].tree <= h[j].tree)
    && (forall i, j :: 0 <= i < j < |h| && !Older(h[i].version, LAST_CONTRACT_BEFORE_MANIFESTS) ==>
          !HasContract(c, h[j].tree - h[i].tree))
  }

  /** `h[n]` is an accepted cut of what came before, from a main that only ever gains migrations. */
  ghost predicate CutHere(c: Checks, h: History, n: nat)
    requires n < |h|
  {
    && (exists r :: Cut(c, h[..n], r) == Some(h[n]))
    && (forall i :: 0 <= i < n ==> h[i].tree <= h[n].tree)
  }

  ghost predicate Reachable(c: Checks, h: History, legacy: nat) {
    && legacy <= |h|
    && Legacy(c, h[..legacy])
    && (forall n :: legacy <= n < |h| ==> CutHere(c, h, n))
  }

  /** Versions strictly increase over every history, and so do the migrations. */
  lemma Increasing(c: Checks, h: History, legacy: nat, i: nat, j: nat)
    requires Reachable(c, h, legacy) && i < j < |h|
    ensures Older(h[i].version, h[j].version) && h[i].tree <= h[j].tree
  {
    if j < legacy {
      assert h[..legacy][i] == h[i] && h[..legacy][j] == h[j];
    } else {
      assert CutHere(c, h, j);
      var r :| Cut(c, h[..j], r) == Some(h[j]);
      assert h[..j][i] == h[i];
    }
  }

  lemma {:induction false} PreviousStableIs(h: History, current: Option<Version>)
    ensures match PreviousStable(h, current)
            case None =>
              forall i :: 0 <= i < |h| ==>
                !(h[i].version.Stable() && (current.None? || Older(h[i].version, current.value)))
            case Some(k) =>
              && h[k].version.Stable() && (current.None? || Older(h[k].version, current.value))
              && forall i ::
                   0 <= i < |h| && h[i].version.Stable() && (current.None? || Older(h[i].version, current.value)) ==>
                   !Older(h[k].version, h[i].version)
  {
    if h != [] {
      var k, front := |h| - 1, h[..|h| - 1];
      PreviousStableIs(front, current);
      var before := PreviousStable(front, current);
      if before.Some? && Older(h[before.value].version, h[k].version) {
        forall i | 0 <= i < k && front[i].version.Stable() && (current.None? || Older(front[i].version, current.value))
          ensures !Older(h[k].version, front[i].version)
        {
          CompareOrder(front[i].version, h[before.value].version);
          CompareOrder(front[i].version, h[k].version);
          if front[i].version != h[before.value].version {
            CompareTrans(front[i].version, h[before.value].version, h[k].version);
          }
        }
      }
      CompareOrder(h[k].version, h[k].version);
    }
  }

  /** An accepted cut compares with the newest stable release before it, which every other one precedes. */
  lemma CutBase(c: Checks, h: History, legacy: nat, n: nat) returns (base: nat, r: Request)
    requires Reachable(c, h, legacy) && legacy <= n < |h|
    ensures base < n && h[base].version.Stable() && ChecksPass(c, h, base, r)
    ensures h[n] == Tag(r.version, r.tree, Some(r.infra), Some(ExpectedLastContract(c, h, base, r)))
    ensures forall i :: base < i < n ==> !h[i].version.Stable()
  {
    assert CutHere(c, h, n);
    r :| Cut(c, h[..n], r) == Some(h[n]);
    base := PreviousStable(h[..n], Some(r.version)).value;
    PreviousStableIs(h[..n], Some(r.version));
    forall i | base < i < n ensures !h[i].version.Stable() {
      Increasing(c, h, legacy, base, i);
      Increasing(c, h, legacy, i, n);
      assert h[..n][i] == h[i];
    }
  }

  /** No contract migration was added between releases `i` and `j`. */
  ghost predicate Untouched(c: Checks, h: History, i: nat, j: nat)
    requires i < |h| && j < |h|
  {
    !HasContract(c, h[j].tree - h[i].tree)
  }

  /** `j` declares no contract release newer than `i`. */
  predicate DeclaresNothingAfter(h: History, i: nat, j: nat)
    requires i < |h| && j < |h|
  {
    h[j].meta.Some? && (h[j].meta.value.None? || Compare(h[j].meta.value.value, h[i].version) <= 0)
  }

  /**
    Skipped contract releases are always caught: over every history of accepted cuts, a release
    whose lastContractVersion is not newer than an earlier one added no contract migration since
    it, pre-releases included on either side.
   */
  lemma {:induction false} SkippedContractCaught(c: Checks, h: History, legacy: nat, i: nat, j: nat)
    requires Reachable(c, h, legacy) && i < j < |h| && legacy <= j
    requires DeclaresNothingAfter(h, i, j)
    ensures Untouched(c, h, i, j)
    decreases j
  {
    var base, r := CutBase(c, h, legacy, j);
    Increasing(c, h, legacy, i, j);
    CompareOrder(h[i].version, h[j].version);
    assert Untouched(c, h, base, j);
    if base < i {
      Increasing(c, h, legacy, base, i);
    } else if base > i {
      if base < legacy {
        assert h[..legacy][i] == h[i] && h[..legacy][base] == h[base];
        CompareOrder(h[i].version, LAST_CONTRACT_BEFORE_MANIFESTS);
      } else {
        assert CutHere(c, h, base);
        SkippedContractCaught(c, h, legacy, i, base);
      }
    }
  }

  // ---- unattended installs ----

  datatype Mode = Auto | Manual | RefusedInstall

  /** How release `j` installs on release `i`: unattended only without contract migrations. */
  predicate ContractFree(c: Checks, h: History, i: nat, j: nat, contract: bool)
    requires i < |h| && j < |h| && h[j].meta.Some?
  {
    !contract && (h[j].meta.value.Some? ==> !Older(h[i].version, h[j].meta.value.value))
  }

  function AssessAutoInstall(c: Checks, h: History, i: nat, j: nat, contract: bool, minFrom: Version): Mode
    requires i < |h| && j < |h| && h[j].meta.Some? && h[j].infra.Some?
  {
    if !Older(h[i].version, h[j].version) || Older(h[i].version, minFrom) then RefusedInstall
    else if (h[i].infra.Some? && h[j].infra.value > h[i].infra.value) || !ContractFree(c, h, i, j, contract) then Manual
    else Auto
  }

  /** An upgrade that runs unattended never runs a contract migration while the old image serves. */
  lemma AutoInstallSafe(c: Checks, h: History, legacy: nat, i: nat, j: nat, contract: bool, minFrom: Version)
    requires Reachable(c, h, legacy) && i < |h| && legacy <= j < |h|
    requires h[j].meta.Some? && h[j].infra.Some? && AssessAutoInstall(c, h, i, j, contract, minFrom) == Auto
    ensures Untouched(c, h, i, j)
  {
    CompareOrder(h[i].version, h[j].version);
    if j <= i {
      if j < i {
        Increasing(c, h, legacy, j, i);
      }
    } else {
      if h[j].meta.value.Some? {
        CompareOrder(h[i].version, h[j].meta.value.value);
      }
      SkippedContractCaught(c, h, legacy, i, j);
    }
  }

  // ---- the infra contract ----

  /** The infra contract never goes down from a stable release to a later one. */
  lemma {:induction false} InfraNeverDown(c: Checks, h: History, legacy: nat, i: nat, j: nat)
    requires Reachable(c, h, legacy) && legacy <= i < j < |h| && h[i].version.Stable()
    ensures h[i].infra.Some? && h[j].infra.Some? && h[i].infra.value <= h[j].infra.value
    decreases j
  {
    var base, r := CutBase(c, h, legacy, j);
    var _, _ := CutBase(c, h, legacy, i);
    if i < base {
      InfraNeverDown(c, h, legacy, i, base);
    }
  }

  // ---- cuts that are accepted ----

  /** Checks that find nothing to refuse but the order of the migrations. */
  ghost predicate NothingElse(c: Checks) {
    (forall m :: !c.contract(m)) && (forall x, y :: !c.infraChanged(x, y))
  }

  /** The base of both cuts is the newest stable release. */
  lemma SameBase(c: Checks, h: History, legacy: nat, cur: nat, v: Version)
    requires Reachable(c, h, legacy) && PreviousStable(h, None) == Some(cur) && Older(h[cur].version, v)
    ensures PreviousStable(h, Some(v)) == Some(cur)
  {
    PreviousStableIs(h, None);
    PreviousStableIs(h, Some(v));
    match PreviousStable(h, Some(v))
    case None =>
    case Some(k) =>
      CompareOrder(h[k].version, h[cur].version);
      if k < cur {
        Increasing(c, h, legacy, k, cur);
      } else if cur < k {
        Increasing(c, h, legacy, cur, k);
      }
  }

  lemma NewerIsGreater(a: Version, b: Version)
    requires Older(a, b) && a.Stable()
    ensures SemverGt(b, a)
  {
    CompareOrder(a, b);
    SemverGtStable(b, a);
  }

  lemma FirstAccepted(c: Checks, h: History, legacy: nat, cur: nat, r: Request)
    requires NothingElse(c) && Reachable(c, h, legacy)
    requires PreviousStable(h, None) == Some(cur) && h[cur].version.Stable()
    requires Older(h[cur].version, r.version) && (forall i :: 0 <= i < |h| ==> Older(h[i].version, r.version))
    requires InOrder(h[cur].tree, Added(h, cur, r.tree)) && (h[cur].infra.Some? ==> r.infra == h[cur].infra.value)
    ensures Cut(c, h, r).Some? && Cut(c, h, r).value.version == r.version && Cut(c, h, r).value.tree == r.tree
  {
    SameBase(c, h, legacy, cur, r.version);
    NewerIsGreater(h[cur].version, r.version);
  }

  lemma ReachableMore(c: Checks, h: History, legacy: nat, t: Tag, r: Request)
    requires Reachable(c, h, legacy) && Cut(c, h, r) == Some(t) && forall i :: 0 <= i < |h| ==> h[i].tree <= t.tree
    ensures Reachable(c, h + [t], legacy)
  {
    var more := h + [t];
    assert more[..legacy] == h[..legacy];
    forall n | legacy <= n < |more| ensures CutHere(c, more, n) {
      if n < |h| {
        assert CutHere(c, h, n);
        assert more[..n] == h[..n];
      } else {
        assert more[..n] == h;
      }
    }
  }

  // ---- bumps ----

  /**
    A bump from the newest stable tag is refused for a tag ahead of it exactly when a pre-release
    at or above the bumped version is already tagged.
   */
  lemma BumpRefusedIff(h: History, kind: Kind)
    requires PreviousStable(h, None).Some?
    ensures var v := Bump(h[PreviousStable(h, None).value].version, kind);
            TaggedAhead(h, v) <==> exists i :: 0 <= i < |h| && !h[i].version.Stable() && !Older(h[i].version, v)
  {
    PreviousStableIs(h, None);
    var current := h[PreviousStable(h, None).value].version;
    var v := Bump(current, kind);
    forall i | 0 <= i < |h| && h[i].version.Stable() ensures Older(h[i].version, v) {
      CompareOrder(v, current);
      CompareOrder(current, h[i].version);
      if h[i].version != current {
        CompareTrans(h[i].version, current, v);
      }
    }
  }

  /**
    Such a history is one cut away: a pre-release `r` of the bumped version or above that may be
    cut leaves the newest stable tag as it is, and the bump from that tag refused.
   */
  lemma PreReleaseBlocksBump(c: Checks, h: History, legacy: nat, cur: nat, r: Request, bump: Request, kind: Kind)
    requires NothingElse(c) && Reachable(c, h, legacy) && PreviousStable(h, None) == Some(cur)
    requires !r.version.Stable() && Older(h[cur].version, r.version) && !Older(r.version, Bump(h[cur].version, kind))
    requires forall i :: 0 <= i < |h| ==> Older(h[i].version, r.version) && h[i].tree <= r.tree
    requires InOrder(h[cur].tree, Added(h, cur, r.tree)) && (h[cur].infra.Some? ==> r.infra == h[cur].infra.value)
    requires bump.version == Bump(h[cur].version, kind)
    ensures Cut(c, h, r).Some?
    ensures var h1 := h + [Cut(c, h, r).value];
            Reachable(c, h1, legacy) && PreviousStable(h1, None) == Some(cur) && Cut(c, h1, bump) == None
  {
    PreviousStableIs(h, None);
    FirstAccepted(c, h, legacy, cur, r);
    var tag := Cut(c, h, r).value;
    ReachableMore(c, h, legacy, tag, r);
    var h1 := h + [tag];
    assert h1[..|h1| - 1] == h && h1[|h|] == tag;
  }
}
