/** The staged image: the same walk through node_modules finds the same packages in it. */
module ImageLayout {
  import opened Text
  import opened Closure

  /** The resolver's walk inside the image, whose packages are the staged directories. */
  function ImageWalk(staged: set<Path>, name: string, dir: Path): Option<Path> {
    if In(dir, name) in staged then Some(In(dir, name))
    else if dir == [] then None
    else ImageWalk(staged, name, dir[..|dir| - 1])
  }

  lemma {:induction false} WalksToTop(staged: set<Path>, name: string, dir: Path)
    requires forall k :: 0 < k <= |dir| ==> In(dir[..k], name) !in staged
    requires In([], name) in staged
    ensures ImageWalk(staged, name, dir) == Some(In([], name))
  {
    if dir != [] {
      assert dir[..|dir|] == dir;
      var up := dir[..|dir| - 1];
      forall k | 0 < k <= |up| ensures In(up[..k], name) !in staged {
        assert up[..k] == dir[..k];
      }
      WalksToTop(staged, name, up);
    }
  }

  lemma {:induction false} EvenLength(image: Path)
    requires ImageDir(image)
    ensures |image| % 2 == 0
  {
    if image != [] {
      EvenLength(image[..|image| - 2]);
    }
  }

  /** A package found above its importer is found at the root, and nowhere on the way there. */
  lemma {:induction false} FoundAbove(disk: Disk, r: Request, dir: Path)
    requires Walk(disk, r, dir).Found? && |dir| < |r.fromSource|
    ensures Walk(disk, r, dir).package.imageDir == In([], r.name)
    ensures disk.root <= dir && forall k :: |disk.root| < k <= |dir| ==> !disk.Exists(In(dir[..k], r.name))
  {
    if disk.Exists(In(dir, r.name)) {
      assert dir == disk.root;
    } else {
      var up := dir[..|dir| - 1];
      FoundAbove(disk, r, up);
      forall k | |disk.root| < k <= |dir| ensures !disk.Exists(In(dir[..k], r.name)) {
        assert dir[..|dir|] == dir;
        assert k < |dir| ==> dir[..k] == up[..k];
      }
    }
  }

  /** Nothing of `name` is on disk on the way from `dir` up to the root. */
  ghost predicate NothingBelow(disk: Disk, dir: Path, name: string) {
    forall k :: |disk.root| < k <= |dir| ==> !disk.Exists(In(dir[..k], name))
  }

  /** A package not found inside its importer is found at the root, with nothing of its name between. */
  lemma FoundOutside(disk: Disk, p: Package, name: string)
    requires Inside(disk, p.sourceDir) && !disk.Exists(In(p.sourceDir, name))
    requires Resolve(disk, RequestOf(name, p)).Found?
    ensures Resolve(disk, RequestOf(name, p)).package.imageDir == In([], name)
    ensures NothingBelow(disk, p.sourceDir, name)
  {
    var r, dir := RequestOf(name, p), p.sourceDir;
    var up := dir[..|dir| - 1];
    assert Walk(disk, r, dir) == Walk(disk, r, up);
    FoundAbove(disk, r, up);
    forall k | |disk.root| < k <= |dir| ensures !disk.Exists(In(dir[..k], name)) {
      assert dir[..|dir|] == dir;
      assert k < |dir| ==> dir[..k] == up[..k];
    }
  }

  lemma PrefixOn(a: Path, b: Path, c: Path)
    requires a <= b
    ensures a <= b + c
  {
  }

  /** The source of each package around a nested one is on the nested one's way up. */
  lemma {:induction false} SourcePrefix(disk: Disk, image: Path, k: nat)
    requires Hoisted(disk) && ImageDir(image) && 2 <= k <= |image| && k % 2 == 0
    ensures ImageDir(image[..k])
    ensures SourceOf(disk, image[..k]) <= SourceOf(disk, image)
    ensures |SourceOf(disk, image[..k])| > |disk.root|
    decreases |image|
  {
    if k == |image| {
      assert image[..k] == image;
      SourcesInside(disk, image);
    } else {
      var front := image[..|image| - 2];
      EvenLength(image);
      CutTwice(image, |image| - 2, k);
      SourcePrefix(disk, front, k);
      SourceGrows(disk, image);
      assert SourceOf(disk, image[..k]) <= SourceOf(disk, front) <= SourceOf(disk, image);
    }
  }

  lemma CutTwice(image: Path, m: nat, k: nat)
    requires k <= m <= |image|
    ensures image[..m][..k] == image[..k]
  {
  }

  lemma SourceGrows(disk: Disk, image: Path)
    requires Hoisted(disk) && ImageDir(image) && |image| > 2
    ensures SourceOf(disk, image[..|image| - 2]) <= SourceOf(disk, image)
  {
    SourcesInside(disk, image);
    PrefixOn(SourceOf(disk, image[..|image| - 2]), SourceOf(disk, image[..|image| - 2]), image[|image| - 2..]);
  }

  /** Nothing of a name is staged between a package and the image's root when disk has it only there. */
  lemma NotStaged(disk: Disk, packages: map<Path, Package>, p: Package, name: string, k: nat)
    requires Hoisted(disk) && Keyed(disk, packages) && Located(disk, p)
    requires NothingBelow(disk, p.sourceDir, name)
    requires 0 < k <= |p.imageDir|
    ensures In(p.imageDir[..k], name) !in packages
  {
    EvenLength(p.imageDir);
    if k % 2 == 0 {
      AboveAbsent(disk, p, name, k);
      AbsentUnstaged(disk, packages, p.imageDir[..k], name);
    } else {
      OddUnstaged(disk, packages, p.imageDir[..k], name);
    }
  }

  /** The disk has nothing of the name around the package. */
  lemma AboveAbsent(disk: Disk, p: Package, name: string, k: nat)
    requires Hoisted(disk) && Located(disk, p) && NothingBelow(disk, p.sourceDir, name)
    requires 0 < k <= |p.imageDir| && k % 2 == 0
    ensures ImageDir(p.imageDir[..k]) && !disk.Exists(In(SourceOf(disk, p.imageDir[..k]), name))
  {
    SourcePrefix(disk, p.imageDir, k);
    var source := SourceOf(disk, p.imageDir[..k]);
    assert source == p.sourceDir[..|source|];
  }

  lemma AbsentUnstaged(disk: Disk, packages: map<Path, Package>, image: Path, name: string)
    requires Keyed(disk, packages) && ImageDir(image) && image != [] && !disk.Exists(In(SourceOf(disk, image), name))
    ensures In(image, name) !in packages
  {
    var dir := In(image, name);
    assert dir[..|dir| - 2] == image && dir[|dir| - 2..] == [MODULES, name];
  }

  lemma OddUnstaged(disk: Disk, packages: map<Path, Package>, image: Path, name: string)
    requires Keyed(disk, packages) && |image| % 2 == 1
    ensures In(image, name) !in packages
  {
    if In(image, name) in packages {
      EvenLength(packages[In(image, name)].imageDir);
    }
  }

  lemma WalkOutside(disk: Disk, packages: map<Path, Package>, p: Package, name: string)
    requires Hoisted(disk) && Keyed(disk, packages) && Located(disk, p)
    requires NothingBelow(disk, p.sourceDir, name) && In([], name) in packages
    ensures ImageWalk(packages.Keys, name, p.imageDir) == Some(In([], name))
  {
    forall k | 0 < k <= |p.imageDir| ensures In(p.imageDir[..k], name) !in packages.Keys {
      NotStaged(disk, packages, p, name, k);
    }
    WalksToTop(packages.Keys, name, p.imageDir);
  }

  /**
    The image layout preserves module resolution: for every staged package and everything it
    resolves on disk, the walk in the image finds exactly the staged copy.
   */
  lemma ResolutionPreserved(
    disk: Disk, roots: seq<string>, libc: string, packages: map<Path, Package>, p: Package, name: string)
    requires Hoisted(disk) && Least(disk, roots, libc, packages)
    requires p in packages.Values && Follows(disk, libc, p, name) && Resolve(disk, RequestOf(name, p)).Found?
    ensures var q := Resolve(disk, RequestOf(name, p)).package;
            && q.imageDir in packages && packages[q.imageDir] == q
            && ImageWalk(packages.Keys, name, p.imageDir) == Some(q.imageDir)
  {
    var q := Resolve(disk, RequestOf(name, p)).package;
    assert q in packages.Values;
    if !disk.Exists(In(p.sourceDir, name)) {
      SourcesInside(disk, p.imageDir);
      FoundOutside(disk, p, name);
      WalkOutside(disk, packages, p, name);
    }
  }

  /** The app itself, at the image's root, finds every run-time package. */
  lemma RootsPreserved(disk: Disk, roots: seq<string>, libc: string, packages: map<Path, Package>, name: string)
    requires Least(disk, roots, libc, packages) && Clean(disk, roots, packages.Values) && name in roots
    ensures ImageWalk(packages.Keys, name, []) == Some(In([], name))
    ensures packages[In([], name)] == Resolve(disk, Request(name, [], disk.root)).package
  {
    var r := Request(name, [], disk.root);
    var q := Resolve(disk, r).package;
    assert q in packages.Values;
    assert disk.Exists(In(disk.root, name)) && q.imageDir == In([], name);
  }

  /** What a package resolves is staged at the top or inside it. */
  lemma NestedIn(disk: Disk, p: Package, name: string)
    requires Hoisted(disk) && Located(disk, p) && Resolve(disk, RequestOf(name, p)).Found?
    ensures var q := Resolve(disk, RequestOf(name, p)).package.imageDir;
            |q| == 2 || (|q| > 2 && q[..|q| - 2] == p.imageDir)
  {
    if !disk.Exists(In(p.sourceDir, name)) {
      SourcesInside(disk, p.imageDir);
      FoundOutside(disk, p, name);
    }
    assert In(p.imageDir, name)[..|p.imageDir|] == p.imageDir;
  }

  /** Every package nested in another is staged inside a staged one. */
  lemma ParentStaged(disk: Disk, roots: seq<string>, libc: string, packages: map<Path, Package>)
    requires Hoisted(disk) && Least(disk, roots, libc, packages)
    ensures forall p :: p in packages.Values ==> |p.imageDir| == 2 || p.imageDir[..|p.imageDir| - 2] in packages
  {
    var nested := set p | p in packages.Values && (|p.imageDir| == 2 || p.imageDir[..|p.imageDir| - 2] in packages);
    forall name | name in roots && Resolve(disk, Request(name, [], disk.root)).Found?
      ensures Resolve(disk, Request(name, [], disk.root)).package in nested
    {
      assert disk.Exists(In(disk.root, name));
    }
    forall p, name | p in nested && Follows(disk, libc, p, name) && Resolve(disk, RequestOf(name, p)).Found?
      ensures Resolve(disk, RequestOf(name, p)).package in nested
    {
      NestedIn(disk, p, name);
    }
    assert Closed(disk, roots, libc, nested);
  }
}
