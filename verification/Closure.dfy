/** The run-time closure of a service image, resolved the way Node resolves packages. */
module Closure {
  import opened Text

  /** An absolute directory, a component at a time; a scoped package name is one component. */
  type Path = seq<string>

  const MODULES := "node_modules"

  datatype Manifest = Manifest(dependencies: seq<string>, optional: seq<string>, libc: Option<set<string>>)

  /** The package directories of a build, by real path, and the symbolic links to some of them. */
  datatype Disk = Disk(root: Path, manifests: map<Path, Manifest>, links: map<Path, Path>)
  {
    function Real(p: Path): Path {
      if p in links then links[p] else p
    }

    /** Whether there is a package at `p`, directly or through a link. */
    predicate Exists(p: Path) {
      Real(p) in manifests
    }
  }

  datatype Package = Package(name: string, imageDir: Path, sourceDir: Path)

  /** A name to find, and the package it is found from; the spec itself has no image directory. */
  datatype Request = Request(name: string, fromImage: Path, fromSource: Path)

  /** `Refused`: found at a level the image layout cannot reproduce, where the script throws. */
  datatype Resolution = Missing | Refused | Found(package: Package)

  function In(dir: Path, name: string): Path {
    dir + [MODULES, name]
  }

  function FoundAt(disk: Disk, r: Request, dir: Path): Resolution {
    if dir == r.fromSource && r.fromImage != [] then
      Found(Package(r.name, In(r.fromImage, r.name), disk.Real(In(dir, r.name))))
    else if dir == disk.root then Found(Package(r.name, In([], r.name), disk.Real(In(dir, r.name))))
    else Refused
  }

  /** The walk from `dir` up to the repository root. */
  function Walk(disk: Disk, r: Request, dir: Path): Resolution {
    if disk.Exists(In(dir, r.name)) then FoundAt(disk, r, dir)
    else if dir == disk.root || dir == [] then Missing
    else Walk(disk, r, dir[..|dir| - 1])
  }

  function Resolve(disk: Disk, r: Request): Resolution {
    Walk(disk, r, r.fromSource)
  }

  method ResolvePackage(disk: Disk, r: Request) returns (found: Resolution)
    ensures found == Resolve(disk, r)
  {
    var dir := r.fromSource;
    while true
      invariant Walk(disk, r, dir) == Resolve(disk, r)
      decreases |dir|
    {
      var candidate := In(dir, r.name);
      if disk.Exists(candidate) {
        return FoundAt(disk, r, dir);
      }
      if dir == disk.root || dir == [] {
        return Missing;
      }
      dir := dir[..|dir| - 1];
    }
  }

  // ---- where packages are ----

  /**
    The hoisted install: only packages directly in the root's node_modules may be links, to
    directories inside the repository.
   */
  ghost predicate Hoisted(disk: Disk) {
    forall p :: p in disk.links ==>
      && |p| == |disk.root| + 2 && p[..|disk.root|] == disk.root && p[|disk.root|] == MODULES
      && Inside(disk, disk.links[p])
  }

  /** Strictly inside the repository. */
  predicate Inside(disk: Disk, p: Path) {
    |p| > |disk.root| && p[..|disk.root|] == disk.root
  }

  /** The source of an image directory: every package is where its importer's walk finds it. */
  function SourceOf(disk: Disk, image: Path): Path {
    if |image| < 2 then disk.root
    else disk.Real(SourceOf(disk, image[..|image| - 2]) + image[|image| - 2..])
  }

  /** An image directory is a chain of packages, each inside the node_modules of the one before. */
  predicate ImageDir(image: Path) {
    image == [] || (|image| >= 2 && image[|image| - 2] == MODULES && ImageDir(image[..|image| - 2]))
  }

  /** The package in the root's node_modules that an image directory starts with is on disk. */
  ghost predicate Based(disk: Disk, image: Path) {
    image != [] ==> |image| >= 2 && disk.Real(disk.root + image[..2]) in disk.manifests
  }

  ghost predicate Located(disk: Disk, p: Package) {
    && p.imageDir != [] && ImageDir(p.imageDir) && Based(disk, p.imageDir)
    && p.name == p.imageDir[|p.imageDir| - 1]
    && p.sourceDir == SourceOf(disk, p.imageDir)
    && p.sourceDir in disk.manifests
  }

  ghost predicate From(disk: Disk, r: Request) {
    ImageDir(r.fromImage) && Based(disk, r.fromImage) && r.fromSource == SourceOf(disk, r.fromImage)
  }

  lemma NestedLocated(disk: Disk, r: Request)
    requires From(disk, r) && r.fromImage != [] && disk.Exists(In(r.fromSource, r.name))
    ensures Located(disk, Package(r.name, In(r.fromImage, r.name), disk.Real(In(r.fromSource, r.name))))
  {
    assert In(r.fromImage, r.name)[..2] == r.fromImage[..2];
  }

  lemma RootLocated(disk: Disk, name: string)
    requires disk.Exists(In(disk.root, name))
    ensures Located(disk, Package(name, In([], name), disk.Real(In(disk.root, name))))
  {
    assert disk.root + In([], name)[..2] == In(disk.root, name);
  }

  lemma {:induction false} WalkLocated(disk: Disk, r: Request, dir: Path)
    requires From(disk, r) && Walk(disk, r, dir).Found?
    ensures Located(disk, Walk(disk, r, dir).package)
  {
    if !disk.Exists(In(dir, r.name)) {
      WalkLocated(disk, r, dir[..|dir| - 1]);
    } else if dir == r.fromSource && r.fromImage != [] {
      NestedLocated(disk, r);
    } else {
      RootLocated(disk, r.name);
    }
  }

  /** The image directory of a package determines its source, and so the whole package. */
  lemma ImageDetermines(disk: Disk, p: Package, q: Package)
    requires Located(disk, p) && Located(disk, q) && p.imageDir == q.imageDir
    ensures p == q
  {
  }

  // ---- the closure, as the least closed set ----

  function RequestOf(name: string, p: Package): Request {
    Request(name, p.imageDir, p.sourceDir)
  }

  predicate Supports(disk: Disk, p: Path, libc: string) {
    p in disk.manifests && (disk.manifests[p].libc.None? || libc in disk.manifests[p].libc.value)
  }

  predicate Depends(disk: Disk, p: Package, name: string) {
    p.sourceDir in disk.manifests && name in disk.manifests[p.sourceDir].dependencies
  }

  predicate Optional(disk: Disk, p: Package, name: string) {
    p.sourceDir in disk.manifests && name in disk.manifests[p.sourceDir].optional
  }

  /** Dependencies are followed; optional ones where installed and of this C library. */
  predicate Follows(disk: Disk, libc: string, p: Package, name: string) {
    || Depends(disk, p, name)
    || (&& Optional(disk, p, name)
        && Resolve(disk, RequestOf(name, p)).Found?
        && Supports(disk, Resolve(disk, RequestOf(name, p)).package.sourceDir, libc))
  }

  ghost predicate Closed(disk: Disk, roots: seq<string>, libc: string, all: set<Package>) {
    && (forall name :: name in roots && Resolve(disk, Request(name, [], disk.root)).Found? ==>
          Resolve(disk, Request(name, [], disk.root)).package in all)
    && (forall p, name :: p in all && Follows(disk, libc, p, name) && Resolve(disk, RequestOf(name, p)).Found? ==>
          Resolve(disk, RequestOf(name, p)).package in all)
  }

  /** Nothing required is missing, and nothing looked up is found at an intermediate level. */
  ghost predicate Clean(disk: Disk, roots: seq<string>, all: set<Package>) {
    && (forall name :: name in roots ==> Resolve(disk, Request(name, [], disk.root)).Found?)
    && (forall p, name :: p in all && Depends(disk, p, name) ==> Resolve(disk, RequestOf(name, p)).Found?)
    && (forall p, name :: p in all && Optional(disk, p, name) ==> !Resolve(disk, RequestOf(name, p)).Refused?)
  }

  /** In every closed set. */
  ghost predicate Forced(disk: Disk, roots: seq<string>, libc: string, p: Package) {
    forall all :: Closed(disk, roots, libc, all) ==> p in all
  }

  /** No closed set is clean: some package that every closed set holds needs what it cannot have. */
  ghost predicate Fails(disk: Disk, roots: seq<string>, libc: string) {
    forall all :: Closed(disk, roots, libc, all) ==> !Clean(disk, roots, all)
  }

  // ---- finitely many image directories ----

  function RootNames(disk: Disk): set<string> {
    (set p | p in disk.manifests && p != [] :: p[|p| - 1]) + (set p | p in disk.links && p != [] :: p[|p| - 1])
  }

  /** A root package and a path below it: all the image directories there can be. */
  function Universe(disk: Disk): set<Path> {
    set x, p, i | x in RootNames(disk) && p in disk.manifests && 0 <= i <= |p| :: In([], x) + p[i..]
  }

  lemma {:induction false} SourcesInside(disk: Disk, image: Path)
    requires Hoisted(disk) && ImageDir(image) && image != []
    ensures Inside(disk, SourceOf(disk, image))
    ensures |image| > 2 ==> SourceOf(disk, image) == SourceOf(disk, image[..|image| - 2]) + image[|image| - 2..]
    decreases |image|
  {
    if |image| == 2 {
      assert image[..0] == [] && image[0..] == image;
      assert disk.root + image == In(disk.root, image[1]);
    } else {
      SourcesInside(disk, image[..|image| - 2]);
    }
  }

  /** Below the root's node_modules the image repeats the disk. */
  lemma {:induction false} SourceBelowRoot(disk: Disk, image: Path)
    requires Hoisted(disk) && ImageDir(image) && image != []
    ensures |image| >= 2
    ensures SourceOf(disk, image) == disk.Real(disk.root + image[..2]) + image[2..]
    decreases |image|
  {
    if |image| == 2 {
      assert image[..0] == [] && image[0..] == image && image[..2] == image && image[2..] == [];
    } else {
      var front, last := image[..|image| - 2], image[|image| - 2..];
      SourcesInside(disk, image);
      SourceBelowRoot(disk, front);
      assert front[..2] == image[..2] && image[2..] == front[2..] + last;
    }
  }

  lemma {:induction false} FirstIsModules(image: Path)
    requires ImageDir(image) && image != []
    ensures |image| >= 2 && image[0] == MODULES
  {
    if |image| > 2 {
      FirstIsModules(image[..|image| - 2]);
    }
  }

  lemma UniverseHas(disk: Disk, x: string, p: Path, i: nat)
    requires x in RootNames(disk) && p in disk.manifests && i <= |p|
    ensures In([], x) + p[i..] in Universe(disk)
  {
  }

  /** A package in the root's node_modules is known by its own directory or by its link. */
  lemma RootNamed(disk: Disk, x: string)
    requires disk.Real(In(disk.root, x)) in disk.manifests
    ensures x in RootNames(disk)
  {
    assert In(disk.root, x)[|disk.root| + 1] == x;
  }

  lemma PathFrom(image: Path, base: Path, source: Path)
    requires |image| >= 2 && image[0] == MODULES && source == base + image[2..]
    ensures image == In([], image[1]) + source[|source| - |image[2..]|..]
  {
    assert source[|base|..] == image[2..];
  }

  lemma InUniverse(disk: Disk, p: Package)
    requires Hoisted(disk) && Located(disk, p)
    ensures p.imageDir in Universe(disk)
  {
    var image, source := p.imageDir, p.sourceDir;
    RootFirst(disk, image);
    PathFrom(image, disk.Real(In(disk.root, image[1])), source);
    UniverseHas(disk, image[1], source, |source| - |image[2..]|);
  }

  lemma RootFirst(disk: Disk, image: Path)
    requires Hoisted(disk) && ImageDir(image) && image != [] && Based(disk, image)
    ensures |image| >= 2 && image[0] == MODULES && image[1] in RootNames(disk)
    ensures SourceOf(disk, image) == disk.Real(In(disk.root, image[1])) + image[2..]
  {
    FirstIsModules(image);
    assert disk.root + image[..2] == In(disk.root, image[1]);
    SourceBelowRoot(disk, image);
    RootNamed(disk, image[1]);
  }

  // ---- there is a least closed set ----

  function PackageAt(disk: Disk, image: Path): Package
    requires image != []
  {
    Package(image[|image| - 1], image, SourceOf(disk, image))
  }

  /** Every package that can be staged. */
  ghost function Stageable(disk: Disk): set<Package> {
    set image | image in Universe(disk) && image != [] && Located(disk, PackageAt(disk, image)) ::
      PackageAt(disk, image)
  }

  lemma LocatedStageable(disk: Disk, p: Package)
    requires Hoisted(disk) && Located(disk, p)
    ensures p in Stageable(disk)
  {
    InUniverse(disk, p);
    assert p == PackageAt(disk, p.imageDir);
  }

  /** All that can be staged is a closed set, so there is one. */
  lemma ClosedExists(disk: Disk, roots: seq<string>, libc: string)
    requires Hoisted(disk)
    ensures Closed(disk, roots, libc, Stageable(disk))
  {
    forall name | name in roots && Resolve(disk, Request(name, [], disk.root)).Found?
      ensures Resolve(disk, Request(name, [], disk.root)).package in Stageable(disk)
    {
      WalkLocated(disk, Request(name, [], disk.root), disk.root);
      LocatedStageable(disk, Resolve(disk, Request(name, [], disk.root)).package);
    }
    forall p, name | p in Stageable(disk) && Follows(disk, libc, p, name) && Resolve(disk, RequestOf(name, p)).Found?
      ensures Resolve(disk, RequestOf(name, p)).package in Stageable(disk)
    {
      WalkLocated(disk, RequestOf(name, p), p.sourceDir);
      LocatedStageable(disk, Resolve(disk, RequestOf(name, p)).package);
    }
  }

  /** The packages that every closed set holds. */
  ghost function Needed(disk: Disk, roots: seq<string>, libc: string): set<Package> {
    set p | p in Stageable(disk) && Forced(disk, roots, libc, p)
  }

  /** The build fails exactly when one of the packages that every closed set holds needs what it cannot have. */
  lemma FailsIff(disk: Disk, roots: seq<string>, libc: string)
    requires Hoisted(disk)
    ensures Closed(disk, roots, libc, Needed(disk, roots, libc))
    ensures Fails(disk, roots, libc) <==> !Clean(disk, roots, Needed(disk, roots, libc))
  {
    var needed := Needed(disk, roots, libc);
    ClosedExists(disk, roots, libc);
    forall name | name in roots && Resolve(disk, Request(name, [], disk.root)).Found?
      ensures Resolve(disk, Request(name, [], disk.root)).package in needed
    {
      assert Forced(disk, roots, libc, Resolve(disk, Request(name, [], disk.root)).package);
    }
    forall p, name | p in needed && Follows(disk, libc, p, name) && Resolve(disk, RequestOf(name, p)).Found?
      ensures Resolve(disk, RequestOf(name, p)).package in needed
    {
      assert Forced(disk, roots, libc, Resolve(disk, RequestOf(name, p)).package);
    }
    assert Closed(disk, roots, libc, needed);
    forall all | Closed(disk, roots, libc, all) && Clean(disk, roots, all) ensures Clean(disk, roots, needed) {
      assert needed <= all;
    }
  }

  // ---- the worklist ----

  datatype Result = Ok(packages: map<Path, Package>) | Err

  /** The requests still queued are the roots', or follow from a package found. */
  ghost predicate Asked(disk: Disk, roots: seq<string>, libc: string, found: map<Path, Package>, r: Request) {
    || (r.fromImage == [] && r.name in roots && r.fromSource == disk.root)
    || (exists k :: k in found && Follows(disk, libc, found[k], r.name) && r == RequestOf(r.name, found[k]))
  }

  /** What a request resolves to, if anything, has been found. */
  ghost predicate Served(disk: Disk, found: map<Path, Package>, r: Request) {
    Resolve(disk, r).Found? && Resolve(disk, r).package in found.Values
  }

  ghost predicate Keyed(disk: Disk, found: map<Path, Package>) {
    forall k :: k in found ==> found[k].imageDir == k && Located(disk, found[k])
  }

  /** Every request of a package found is queued or served, and none of its optional ones was refused. */
  ghost predicate Expanded(disk: Disk, libc: string, found: map<Path, Package>, queue: seq<Request>) {
    forall k, name :: k in found ==>
      && (Follows(disk, libc, found[k], name) ==>
           RequestOf(name, found[k]) in queue || Served(disk, found, RequestOf(name, found[k])))
      && (Optional(disk, found[k], name) ==> !Resolve(disk, RequestOf(name, found[k])).Refused?)
  }

  ghost predicate RootsAsked(disk: Disk, roots: seq<string>, found: map<Path, Package>, queue: seq<Request>) {
    forall name :: name in roots ==>
      Request(name, [], disk.root) in queue || Served(disk, found, Request(name, [], disk.root))
  }

  ghost predicate AllAsked(
    disk: Disk, roots: seq<string>, libc: string, found: map<Path, Package>, queue: seq<Request>)
  {
    forall r :: r in queue ==> Asked(disk, roots, libc, found, r)
  }

  ghost predicate AllForced(disk: Disk, roots: seq<string>, libc: string, found: map<Path, Package>) {
    forall k :: k in found ==> Forced(disk, roots, libc, found[k])
  }

  /** The requests of a package: its dependencies, then the optional ones that are installed. */
  method Requests(disk: Disk, libc: string, p: Package) returns (r: Option<seq<Request>>)
    requires p.sourceDir in disk.manifests
    ensures r.None? <==> exists name :: Optional(disk, p, name) && Resolve(disk, RequestOf(name, p)).Refused?
    ensures r.Some? ==> RequestsOf(disk, libc, p, r.value)
  {
    var manifest := disk.manifests[p.sourceDir];
    var out: seq<Request> := [];
    for i := 0 to |manifest.dependencies|
      invariant forall q :: q in out <==> q.name in manifest.dependencies[..i] && q == RequestOf(q.name, p)
    {
      out := out + [RequestOf(manifest.dependencies[i], p)];
    }
    assert manifest.dependencies[..|manifest.dependencies|] == manifest.dependencies;
    ghost var required := out;
    for i := 0 to |manifest.optional|
      invariant forall q :: q in out <==>
                  q in required ||
                  (q.name in manifest.optional[..i] && Follows(disk, libc, p, q.name) && q == RequestOf(q.name, p))
      invariant forall k :: 0 <= k < i ==> !Resolve(disk, RequestOf(manifest.optional[k], p)).Refused?
    {
      var name := manifest.optional[i];
      var installed := ResolvePackage(disk, RequestOf(name, p));
      if installed.Refused? {
        assert Optional(disk, p, name);
        return None;
      }
      if installed.Found? && Supports(disk, installed.package.sourceDir, libc) {
        out := out + [RequestOf(name, p)];
      }
    }
    assert manifest.optional[..|manifest.optional|] == manifest.optional;
    r := Some(out);
  }

  ghost predicate Inv(disk: Disk, roots: seq<string>, libc: string, found: map<Path, Package>, queue: seq<Request>) {
    && Keyed(disk, found)
    && AllAsked(disk, roots, libc, found, queue)
    && Expanded(disk, libc, found, queue)
    && RootsAsked(disk, roots, found, queue)
    && AllForced(disk, roots, libc, found)
  }

  lemma AskedFrom(disk: Disk, roots: seq<string>, libc: string, found: map<Path, Package>, r: Request)
    requires Keyed(disk, found) && Asked(disk, roots, libc, found, r)
    ensures From(disk, r)
    ensures Resolve(disk, r).Found? ==> Located(disk, Resolve(disk, r).package)
  {
    if Resolve(disk, r).Found? {
      WalkLocated(disk, r, r.fromSource);
    }
  }

  /** A request that does not resolve leaves no closed set clean. */
  lemma AskedFails(disk: Disk, roots: seq<string>, libc: string, found: map<Path, Package>, r: Request)
    requires AllForced(disk, roots, libc, found) && Asked(disk, roots, libc, found, r) && !Resolve(disk, r).Found?
    ensures Fails(disk, roots, libc)
  {
    forall all | Closed(disk, roots, libc, all) ensures !Clean(disk, roots, all) {
      if r.fromImage == [] && r.name in roots && r.fromSource == disk.root {
        assert r == Request(r.name, [], disk.root);
      } else {
        var k :| k in found && Follows(disk, libc, found[k], r.name) && r == RequestOf(r.name, found[k]);
        assert Forced(disk, roots, libc, found[k]);
        assert Depends(disk, found[k], r.name);
      }
    }
  }

  /** The requests are those of `p`, and none of its optional ones was refused. */
  ghost predicate RequestsOf(disk: Disk, libc: string, p: Package, requests: seq<Request>) {
    && (forall q :: q in requests <==> Follows(disk, libc, p, q.name) && q == RequestOf(q.name, p))
    && (forall name :: Optional(disk, p, name) ==> !Resolve(disk, RequestOf(name, p)).Refused?)
  }

  lemma AskedMore(
    disk: Disk, roots: seq<string>, libc: string, found: map<Path, Package>, p: Package, r: Request)
    requires p.imageDir !in found
    requires Asked(disk, roots, libc, found, r) || (Follows(disk, libc, p, r.name) && r == RequestOf(r.name, p))
    ensures Asked(disk, roots, libc, found[p.imageDir := p], r)
  {
    var next := found[p.imageDir := p];
    if exists k :: k in found && Follows(disk, libc, found[k], r.name) && r == RequestOf(r.name, found[k]) {
      var k :| k in found && Follows(disk, libc, found[k], r.name) && r == RequestOf(r.name, found[k]);
      assert next[k] == found[k];
    } else {
      assert next[p.imageDir] == p;
    }
  }

  lemma ExpandedMore(
    disk: Disk, libc: string, found: map<Path, Package>, queue: seq<Request>, p: Package, requests: seq<Request>)
    requires queue != [] && Expanded(disk, libc, found, queue) && RequestsOf(disk, libc, p, requests)
    requires Resolve(disk, queue[0]) == Found(p) && p.imageDir !in found
    ensures Expanded(disk, libc, found[p.imageDir := p], queue[1..] + requests)
  {
    var next, rest := found[p.imageDir := p], queue[1..] + requests;
    ServedMore(disk, found, p);
    forall k, name | k in next ensures
      && (Follows(disk, libc, next[k], name) ==>
           RequestOf(name, next[k]) in rest || Served(disk, next, RequestOf(name, next[k])))
      && (Optional(disk, next[k], name) ==> !Resolve(disk, RequestOf(name, next[k])).Refused?)
    {
      var r := RequestOf(name, next[k]);
      if k == p.imageDir {
        assert Follows(disk, libc, p, name) ==> r in requests;
      } else if r in queue && r != queue[0] {
        assert r in queue[1..];
      } else if r == queue[0] {
        assert next[p.imageDir] == p;
      }
    }
  }

  lemma RootsMore(
    disk: Disk, roots: seq<string>, found: map<Path, Package>, queue: seq<Request>, p: Package, requests: seq<Request>)
    requires queue != [] && RootsAsked(disk, roots, found, queue)
    requires Resolve(disk, queue[0]) == Found(p) && p.imageDir !in found
    ensures RootsAsked(disk, roots, found[p.imageDir := p], queue[1..] + requests)
  {
    var next := found[p.imageDir := p];
    ServedMore(disk, found, p);
    forall name | name in roots
      ensures Request(name, [], disk.root) in queue[1..] + requests || Served(disk, next, Request(name, [], disk.root))
    {
      var r := Request(name, [], disk.root);
      if r in queue && r != queue[0] {
        assert r in queue[1..];
      } else if r == queue[0] {
        assert next[p.imageDir] == p;
      }
    }
  }

  lemma AllAskedMore(
    disk: Disk, roots: seq<string>, libc: string, found: map<Path, Package>, queue: seq<Request>,
    p: Package, requests: seq<Request>)
    requires queue != [] && AllAsked(disk, roots, libc, found, queue)
    requires p.imageDir !in found && RequestsOf(disk, libc, p, requests)
    ensures AllAsked(disk, roots, libc, found[p.imageDir := p], queue[1..] + requests)
  {
    forall r | r in queue[1..] + requests ensures Asked(disk, roots, libc, found[p.imageDir := p], r) {
      assert r in queue || r in requests;
      AskedMore(disk, roots, libc, found, p, r);
    }
  }

  lemma FoundMore(disk: Disk, roots: seq<string>, libc: string, found: map<Path, Package>, p: Package)
    requires Keyed(disk, found) && AllForced(disk, roots, libc, found)
    requires Located(disk, p) && Forced(disk, roots, libc, p) && p.imageDir !in found
    ensures Keyed(disk, found[p.imageDir := p]) && AllForced(disk, roots, libc, found[p.imageDir := p])
  {
  }

  lemma InvAdd(
    disk: Disk, roots: seq<string>, libc: string, found: map<Path, Package>, queue: seq<Request>,
    p: Package, requests: seq<Request>)
    requires queue != [] && Inv(disk, roots, libc, found, queue)
    requires Resolve(disk, queue[0]) == Found(p) && p.imageDir !in found
    requires RequestsOf(disk, libc, p, requests)
    ensures Inv(disk, roots, libc, found[p.imageDir := p], queue[1..] + requests)
  {
    assert Asked(disk, roots, libc, found, queue[0]);
    AskedFrom(disk, roots, libc, found, queue[0]);
    FoundMore(disk, roots, libc, found, p);
    ExpandedMore(disk, libc, found, queue, p, requests);
    RootsMore(disk, roots, found, queue, p, requests);
    AllAskedMore(disk, roots, libc, found, queue, p, requests);
  }

  lemma ServedMore(disk: Disk, found: map<Path, Package>, p: Package)
    requires p.imageDir !in found
    ensures forall r :: Served(disk, found, r) ==> Served(disk, found[p.imageDir := p], r)
  {
    var next := found[p.imageDir := p];
    forall q | q in found.Values ensures q in next.Values {
      var k :| k in found && found[k] == q;
      assert next[k] == q;
    }
  }

  /** Every package of the result, once, is in every closed set, and together they are one. */
  ghost predicate Least(disk: Disk, roots: seq<string>, libc: string, packages: map<Path, Package>) {
    && Keyed(disk, packages)
    && Closed(disk, roots, libc, packages.Values)
    && forall all :: Closed(disk, roots, libc, all) ==> packages.Values <= all
  }

  lemma InvDone(disk: Disk, roots: seq<string>, libc: string, found: map<Path, Package>)
    requires Inv(disk, roots, libc, found, [])
    ensures Least(disk, roots, libc, found) && Clean(disk, roots, found.Values)
  {
    forall p | p in found.Values ensures p.imageDir in found && found[p.imageDir] == p {
      var k :| k in found && found[k] == p;
    }
    forall all | Closed(disk, roots, libc, all) ensures found.Values <= all {
      forall p | p in found.Values ensures p in all {
        assert Forced(disk, roots, libc, found[p.imageDir]);
      }
    }
    forall p, name | p in found.Values && Follows(disk, libc, p, name)
      ensures Served(disk, found, RequestOf(name, p))
    {
      assert found[p.imageDir] == p;
    }
    forall p, name | p in found.Values && Optional(disk, p, name)
      ensures !Resolve(disk, RequestOf(name, p)).Refused?
    {
      assert found[p.imageDir] == p;
    }
    forall name | name in roots ensures Served(disk, found, Request(name, [], disk.root)) {}
  }

  lemma InvStart(disk: Disk, roots: seq<string>, libc: string, queue: seq<Request>)
    requires queue == seq(|roots|, i requires 0 <= i < |roots| => Request(roots[i], [], disk.root))
    ensures Inv(disk, roots, libc, map[], queue)
  {
    assert forall i :: 0 <= i < |roots| ==> queue[i] == Request(roots[i], [], disk.root);
  }

  /** One turn of the worklist: None where the build fails. */
  method Step(disk: Disk, roots: seq<string>, libc: string, found: map<Path, Package>, queue: seq<Request>)
    returns (r: Option<(map<Path, Package>, seq<Request>)>)
    requires Hoisted(disk) && queue != [] && Inv(disk, roots, libc, found, queue)
    ensures r.None? ==> Fails(disk, roots, libc)
    ensures r.Some? ==> Inv(disk, roots, libc, r.value.0, r.value.1)
    ensures r.Some? && r.value.0.Keys == found.Keys ==> |r.value.1| < |queue|
    ensures r.Some? && r.value.0.Keys != found.Keys ==> Universe(disk) - r.value.0.Keys < Universe(disk) - found.Keys
  {
    var next := queue[0];
    assert Asked(disk, roots, libc, found, next);
    AskedFrom(disk, roots, libc, found, next);
    var resolved := ResolvePackage(disk, next);
    if !resolved.Found? {
      AskedFails(disk, roots, libc, found, next);
      return None;
    }
    var p := resolved.package;
    if p.imageDir in found {
      ImageDetermines(disk, p, found[p.imageDir]);
      return Some((found, queue[1..]));
    }
    InUniverse(disk, p);
    var requests := Requests(disk, libc, p);
    if requests.None? {
      return None;
    }
    InvAdd(disk, roots, libc, found, queue, p, requests.value);
    var more := found[p.imageDir := p];
    assert p.imageDir in Universe(disk) - found.Keys && p.imageDir !in Universe(disk) - more.Keys;
    r := Some((more, queue[1..] + requests.value));
  }

  /**
    The closure is the least set of packages holding the roots' and closed under dependencies and
    installed optional dependencies; the build succeeds exactly when some closed set is clean.
   */
  method RuntimeClosure(disk: Disk, roots: seq<string>, libc: string) returns (r: Result)
    requires Hoisted(disk)
    ensures r.Ok? ==> Least(disk, roots, libc, r.packages) && Clean(disk, roots, r.packages.Values)
    ensures r.Ok? <==> !Fails(disk, roots, libc)
  {
    var found: map<Path, Package> := map[];
    var queue := seq(|roots|, i requires 0 <= i < |roots| => Request(roots[i], [], disk.root));
    InvStart(disk, roots, libc, queue);
    while queue != []
      invariant Inv(disk, roots, libc, found, queue)
      decreases Universe(disk) - found.Keys, |queue|
    {
      var step := Step(disk, roots, libc, found, queue);
      if step.None? {
        return Err;
      }
      found, queue := step.value.0, step.value.1;
    }
    InvDone(disk, roots, libc, found);
    return Ok(found);
  }
}
