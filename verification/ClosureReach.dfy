/** What a name resolves to on disk, and which packages exactly the closure stages, in terms of the disk alone. */
module ClosureReach {
  import opened Text
  import opened Closure
  import opened ImageLayout

  // ---- resolution ----

  /** A package named `name` lies in the node_modules of the `k`-th level of `from`. */
  predicate At(disk: Disk, from: Path, name: string, k: nat) {
    k <= |from| && disk.Exists(from[..k] + [MODULES, name])
  }

  /** Level `k` is the nearest one, from `from` up to the root, that has the package. */
  predicate Nearest(disk: Disk, from: Path, name: string, k: nat) {
    && |disk.root| <= k && At(disk, from, name, k)
    && forall j :: k < j <= |from| ==> !At(disk, from, name, j)
  }

  predicate Below(disk: Disk, from: Path) {
    |disk.root| <= |from| && from[..|disk.root|] == disk.root
  }

  lemma {:induction false} WalkIs(disk: Disk, r: Request, n: nat)
    requires Below(disk, r.fromSource) && |disk.root| <= n <= |r.fromSource|
    requires forall j :: n < j <= |r.fromSource| ==> !At(disk, r.fromSource, r.name, j)
    ensures var found := Walk(disk, r, r.fromSource[..n]);
            || (found == Missing && forall j: nat :: |disk.root| <= j ==> !At(disk, r.fromSource, r.name, j))
            || (exists k: nat :: Nearest(disk, r.fromSource, r.name, k) && found == FoundAt(disk, r, r.fromSource[..k]))
  {
    var from := r.fromSource;
    var dir := from[..n];
    if disk.Exists(In(dir, r.name)) {
      assert Nearest(disk, from, r.name, n);
    } else if n > |disk.root| {
      assert dir != disk.root && dir[..|dir| - 1] == from[..n - 1];
      WalkIs(disk, r, n - 1);
    } else {
      assert dir == disk.root;
    }
  }

  /**
    A name resolves to the package at the nearest level: next to its importer it is staged inside
    it, at the root at the top, and anything between is refused.
   */
  lemma ResolveIs(disk: Disk, r: Request)
    requires Below(disk, r.fromSource)
    ensures match Resolve(disk, r)
            case Missing => forall j: nat :: |disk.root| <= j ==> !At(disk, r.fromSource, r.name, j)
            case Found(p) =>
              exists k: nat ::
                && Nearest(disk, r.fromSource, r.name, k)
                && p.name == r.name
                && p.sourceDir == disk.Real(r.fromSource[..k] + [MODULES, r.name])
                && (if k == |r.fromSource| && r.fromImage != [] then p.imageDir == r.fromImage + [MODULES, r.name]
                    else k == |disk.root| && p.imageDir == [MODULES, r.name])
            case Refused =>
              exists k: nat ::
                && Nearest(disk, r.fromSource, r.name, k)
                && k != |disk.root| && (k < |r.fromSource| || r.fromImage == [])
  {
    var from := r.fromSource;
    assert from[..|from|] == from;
    WalkIs(disk, r, |from|);
    if k: nat :| Nearest(disk, from, r.name, k) && Resolve(disk, r) == FoundAt(disk, r, from[..k]) {
      assert from[..k] == from <==> k == |from|;
      assert from[..k] == disk.root <==> k == |disk.root|;
      assert [] + [MODULES, r.name] == [MODULES, r.name];
    }
  }

  // ---- the packages staged ----

  /** A root of the build resolves to the package. */
  ghost predicate RootOf(disk: Disk, roots: seq<string>, q: Package) {
    exists name :: name in roots && Resolve(disk, Request(name, [], disk.root)) == Found(q)
  }

  /** `p` depends on a name that it resolves to `q`, or has it as an optional one and `q` runs on this C library. */
  predicate Needs(disk: Disk, libc: string, p: Package, name: string, q: Package) {
    && p.sourceDir in disk.manifests
    && Resolve(disk, Request(name, p.imageDir, p.sourceDir)) == Found(q)
    && (name in disk.manifests[p.sourceDir].dependencies
        || (name in disk.manifests[p.sourceDir].optional
            && q.sourceDir in disk.manifests
            && (disk.manifests[q.sourceDir].libc.None? || libc in disk.manifests[q.sourceDir].libc.value)))
  }

  ghost predicate NextTo(disk: Disk, libc: string, p: Package, q: Package) {
    exists name :: Needs(disk, libc, p, name, q)
  }

  /** A chain of packages from one that a root resolves to, each needed by the one before, to `q`. */
  ghost predicate Chain(disk: Disk, roots: seq<string>, libc: string, chain: seq<Package>, q: Package) {
    && chain != [] && RootOf(disk, roots, chain[0]) && chain[|chain| - 1] == q
    && forall k, m :: 0 <= k && m == k + 1 < |chain| ==> NextTo(disk, libc, chain[k], chain[m])
  }

  ghost predicate Reached(disk: Disk, roots: seq<string>, libc: string, q: Package) {
    exists chain :: Chain(disk, roots, libc, chain, q)
  }

  lemma ReachedNext(disk: Disk, roots: seq<string>, libc: string, p: Package, q: Package)
    requires Reached(disk, roots, libc, p) && NextTo(disk, libc, p, q)
    ensures Reached(disk, roots, libc, q)
  {
    var chain :| Chain(disk, roots, libc, chain, p);
    assert Chain(disk, roots, libc, chain + [q], q);
  }

  lemma {:induction false} ChainWithin(
    disk: Disk, roots: seq<string>, libc: string, all: set<Package>, chain: seq<Package>, q: Package)
    requires Closed(disk, roots, libc, all) && Chain(disk, roots, libc, chain, q)
    ensures q in all
    decreases |chain|
  {
    if |chain| > 1 {
      var front := chain[..|chain| - 1];
      var p := front[|front| - 1];
      ChainWithin(disk, roots, libc, all, front, p);
      assert NextTo(disk, libc, chain[|chain| - 2], chain[|chain| - 1]);
      var name :| Needs(disk, libc, p, name, q);
      assert Follows(disk, libc, p, name) && Resolve(disk, RequestOf(name, p)) == Found(q);
    } else {
      var name :| name in roots && Resolve(disk, Request(name, [], disk.root)) == Found(q);
    }
  }

  /** What is reached, of a set that is closed, is closed. */
  lemma ReachedClosed(disk: Disk, roots: seq<string>, libc: string, all: set<Package>)
    requires Closed(disk, roots, libc, all)
    ensures Closed(disk, roots, libc, set q | q in all && Reached(disk, roots, libc, q))
  {
    var some := set q | q in all && Reached(disk, roots, libc, q);
    forall name | name in roots && Resolve(disk, Request(name, [], disk.root)).Found?
      ensures Resolve(disk, Request(name, [], disk.root)).package in some
    {
      var q := Resolve(disk, Request(name, [], disk.root)).package;
      assert Chain(disk, roots, libc, [q], q);
    }
    forall p, name | p in some && Follows(disk, libc, p, name) && Resolve(disk, RequestOf(name, p)).Found?
      ensures Resolve(disk, RequestOf(name, p)).package in some
    {
      assert Needs(disk, libc, p, name, Resolve(disk, RequestOf(name, p)).package);
      ReachedNext(disk, roots, libc, p, Resolve(disk, RequestOf(name, p)).package);
    }
  }

  /** The packages staged are exactly those reached from the roots, a need at a time. */
  lemma StagedIff(disk: Disk, roots: seq<string>, libc: string, packages: map<Path, Package>, q: Package)
    requires Least(disk, roots, libc, packages)
    ensures q in packages.Values <==> Reached(disk, roots, libc, q)
  {
    ReachedClosed(disk, roots, libc, packages.Values);
    if Reached(disk, roots, libc, q) {
      var chain :| Chain(disk, roots, libc, chain, q);
      ChainWithin(disk, roots, libc, packages.Values, chain, q);
    }
  }

  /** A package that is reached depends on what does not resolve, or has an optional one that is refused. */
  ghost predicate Stuck(disk: Disk, roots: seq<string>, libc: string, p: Package, name: string) {
    && Reached(disk, roots, libc, p) && p.sourceDir in disk.manifests
    && var found := Resolve(disk, Request(name, p.imageDir, p.sourceDir));
       || (name in disk.manifests[p.sourceDir].dependencies && !found.Found?)
       || (name in disk.manifests[p.sourceDir].optional && found.Refused?)
  }

  /** The build fails exactly when a root does not resolve, or something reached is stuck. */
  lemma FailsReached(disk: Disk, roots: seq<string>, libc: string)
    requires Hoisted(disk)
    ensures Fails(disk, roots, libc) <==>
            || (exists name :: name in roots && !Resolve(disk, Request(name, [], disk.root)).Found?)
            || (exists p, name :: Stuck(disk, roots, libc, p, name))
  {
    var needed := Needed(disk, roots, libc);
    FailsIff(disk, roots, libc);
    NeededReached(disk, roots, libc);
    if p, name :| Stuck(disk, roots, libc, p, name) {
      StuckUnclean(disk, roots, libc, needed, p, name);
    }
    var found := forall name :: name in roots ==> Resolve(disk, Request(name, [], disk.root)).Found?;
    if !Clean(disk, roots, needed) && found {
      StuckIn(disk, roots, libc, needed);
    }
  }

  /** The packages that every closed set holds are those reached. */
  lemma NeededReached(disk: Disk, roots: seq<string>, libc: string)
    requires Hoisted(disk)
    ensures forall q :: q in Needed(disk, roots, libc) <==> Reached(disk, roots, libc, q)
  {
    var needed := Needed(disk, roots, libc);
    FailsIff(disk, roots, libc);
    ReachedClosed(disk, roots, libc, needed);
    forall q | q in needed ensures Reached(disk, roots, libc, q) {
      assert Forced(disk, roots, libc, q);
    }
    forall q | Reached(disk, roots, libc, q) ensures q in needed {
      var chain :| Chain(disk, roots, libc, chain, q);
      ChainWithin(disk, roots, libc, needed, chain, q);
    }
  }

  lemma StuckUnclean(disk: Disk, roots: seq<string>, libc: string, all: set<Package>, p: Package, name: string)
    requires p in all && Stuck(disk, roots, libc, p, name)
    ensures !Clean(disk, roots, all)
  {
    assert Depends(disk, p, name) || Optional(disk, p, name);
  }

  lemma StuckIn(disk: Disk, roots: seq<string>, libc: string, all: set<Package>)
    requires forall q :: q in all ==> Reached(disk, roots, libc, q)
    requires !Clean(disk, roots, all)
    requires forall name :: name in roots ==> Resolve(disk, Request(name, [], disk.root)).Found?
    ensures exists p, name :: Stuck(disk, roots, libc, p, name)
  {
    if p, name :| p in all && Depends(disk, p, name) && !Resolve(disk, RequestOf(name, p)).Found? {
      assert Stuck(disk, roots, libc, p, name);
    } else {
      var p, name :| p in all && Optional(disk, p, name) && Resolve(disk, RequestOf(name, p)).Refused?;
      assert Stuck(disk, roots, libc, p, name);
    }
  }
}
